/**
 The fixed-window rate limiter. A bucket is a summary of the attempts made under its key;
 the module proves that the summary answers as a replay of the whole history would.
 Times are nanoseconds after Go's zero time, so 0 is the zero time.
 */
module RateLimiter {
  import Schema

  datatype RatePolicy = RatePolicy(limit: int, window: int)

  datatype Bucket = Bucket(count: nat, windowStart: int, lastSeen: int)

  type Buckets = map<string, Bucket>

  const MAX_BUCKETS := 10000
  const ZERO := Bucket(0, 0, 0)

  predicate Enabled(policy: RatePolicy) {
    policy.limit > 0 && policy.window > 0
  }

  /** A map read: the zero bucket when the key is missing. */
  function Lookup(m: Buckets, key: string): Bucket {
    if key in m then m[key] else ZERO
  }

  /** What every stored bucket satisfies: a named key and times after the zero time. */
  ghost predicate WellFormed(m: Buckets) {
    && |m| <= MAX_BUCKETS
    && forall k | k in m :: k != "" && 0 < m[k].windowStart <= m[k].lastSeen
  }

  /** The clock has not gone back behind a bucket. */
  ghost predicate SeenBy(m: Buckets, now: int) {
    forall k | k in m :: m[k].lastSeen <= now
  }

  predicate NeedsRoom(m: Buckets, key: string) {
    Lookup(m, key).windowStart == 0 && |m| >= MAX_BUCKETS
  }

  ghost predicate LeastRecentlySeen(m: Buckets, victim: string) {
    victim in m && forall k | k in m :: m[victim].lastSeen <= m[k].lastSeen
  }

  function MakeRoom(m: Buckets, key: string, victim: string): Buckets {
    if NeedsRoom(m, key) then m - {victim} else m
  }

  /** The bucket an attempt is counted in. */
  function CurrentBucket(b: Bucket, policy: RatePolicy, now: int): Bucket {
    if b.windowStart == 0 || now >= b.windowStart + policy.window then Bucket(0, now, now) else b.(lastSeen := now)
  }

  datatype Answer = Answer(allowed: bool, wait: int)

  /** What an attempt does to its own bucket. */
  function Decide(b: Bucket, policy: RatePolicy, now: int): (Bucket, Answer) {
    var current := CurrentBucket(b, policy, now);
    if current.count >= policy.limit then (current, Answer(false, current.windowStart + policy.window - now))
    else (current.(count := current.count + 1), Answer(true, 0))
  }

  /** Allow, with the bucket it evicts when it must evict one. */
  function Attempt(m: Buckets, key: string, policy: RatePolicy, now: int, victim: string): (Buckets, Answer) {
    if !Enabled(policy) then (m, Answer(true, 0))
    else
      var (b, answer) := Decide(Lookup(m, key), policy, now);
      (MakeRoom(m, key, victim)[key := b], answer)
  }

  /** Cleanup */
  function Swept(m: Buckets, maxAge: int, now: int): Buckets {
    map k | k in m && now - m[k].lastSeen <= maxAge :: m[k]
  }

  /** Attempts on several keys in turn, stopping at the first that is refused. */
  function Consume(m: Buckets, keys: seq<string>, policy: RatePolicy, at: seq<int>, victims: seq<string>): (Buckets,
                   Answer)
    requires |keys| == |at| == |victims|
    decreases |keys|
  {
    if keys == [] then (m, Answer(true, 0))
    else
      var (m', answer) := Attempt(m, keys[0], policy, at[0], victims[0]);
      if !answer.allowed then (m', answer) else Consume(m', keys[1..], policy, at[1..], victims[1..])
  }

  /** The Retry-After header: whole seconds, rounded up, at least one. */
  function RetrySeconds(wait: int): int {
    var seconds := if wait <= 0 then 0 else (wait + Schema.SECOND - 1) / Schema.SECOND;
    if seconds < 1 then 1 else seconds
  }

  // ---------------------------------------------------------------- the object

  class Limiter {
    var buckets: Buckets

    ghost predicate Valid()
      reads this
    {
      WellFormed(buckets)
    }

    constructor ()
      ensures Valid() && buckets == map[]
    {
      buckets := map[];
    }

    /** The least recently seen key, found by going over the map in any order. */
    method OldestKey() returns (oldestKey: string)
      requires Valid() && buckets != map[]
      ensures LeastRecentlySeen(buckets, oldestKey)
    {
      oldestKey := "";
      var oldest := 0;
      var rest := buckets.Keys;
      while rest != {}
        invariant rest <= buckets.Keys
        invariant oldestKey == "" ==> rest == buckets.Keys
        invariant oldestKey != "" ==> oldestKey in buckets && oldest == buckets[oldestKey].lastSeen
        invariant oldestKey != "" ==> forall k | k in buckets.Keys - rest :: oldest <= buckets[k].lastSeen
        decreases rest
      {
        var candidate :| candidate in rest;
        rest := rest - {candidate};
        if oldestKey == "" || buckets[candidate].lastSeen < oldest {
          oldestKey, oldest := candidate, buckets[candidate].lastSeen;
        }
      }
    }

    method Allow(key: string, policy: RatePolicy, now: int) returns (answer: Answer, ghost victim: string)
      requires Valid() && key != "" && now > 0
      requires SeenBy(buckets, now)
      modifies this
      ensures Valid()
      ensures (buckets, answer) == Attempt(old(buckets), key, policy, now, victim)
      ensures Enabled(policy) && NeedsRoom(old(buckets), key) ==> LeastRecentlySeen(old(buckets), victim)
      ensures SeenBy(buckets, now)
    {
      victim := "";
      if policy.limit <= 0 || policy.window <= 0 {
        return Answer(true, 0), victim;
      }
      var before := buckets;
      var bucket := Lookup(buckets, key);
      if bucket.windowStart == 0 && |buckets| >= MAX_BUCKETS {
        var oldestKey := OldestKey();
        victim := oldestKey;
        buckets := buckets - {oldestKey};
      }
      AttemptKeepsWellFormed(before, key, policy, now, victim);
      if bucket.windowStart == 0 || now >= bucket.windowStart + policy.window {
        bucket := Bucket(0, now, now);
      }
      bucket := bucket.(lastSeen := now);
      if bucket.count >= policy.limit {
        buckets := buckets[key := bucket];
        return Answer(false, bucket.windowStart + policy.window - now), victim;
      }
      bucket := bucket.(count := bucket.count + 1);
      buckets := buckets[key := bucket];
      answer := Answer(true, 0);
    }

    method Cleanup(maxAge: int, now: int)
      requires Valid()
      modifies this
      ensures Valid() && buckets == Swept(old(buckets), maxAge, now)
      ensures forall k :: k in buckets <==> k in old(buckets) && now - old(buckets)[k].lastSeen <= maxAge
      ensures forall k | k in buckets :: buckets[k] == old(buckets)[k]
    {
      var all := buckets;
      var rest := all.Keys;
      while rest != {}
        invariant rest <= all.Keys
        invariant forall k :: k in buckets <==> k in rest || (k in all && now - all[k].lastSeen <= maxAge)
        invariant forall k | k in buckets :: k in all && buckets[k] == all[k]
        decreases rest
      {
        var key :| key in rest;
        rest := rest - {key};
        if now - all[key].lastSeen > maxAge {
          buckets := buckets - {key};
        }
      }
      SweptIsSmaller(all, maxAge, now);
      assert buckets == Swept(all, maxAge, now);
    }

    /** rateRetryAfter: sweep with twice this action's window, then the IP bucket and, when an account
        is named, the account bucket. The first |victims| keys are tried; an account bucket is not
        consumed when the IP is refused. */
    method RateRetryAfter(policy: RatePolicy, keys: seq<string>, sweptAt: int, at: seq<int>)
      returns (seconds: int, ok: bool, ghost victims: seq<string>)
      requires Valid() && |keys| == |at| && forall i | 0 <= i < |keys| :: keys[i] != "" && sweptAt <= at[i] && at[i] > 0
      requires SeenBy(buckets, sweptAt)
      requires forall i, j | 0 <= i < j < |at| :: at[i] <= at[j]
      modifies this
      ensures Valid() && |victims| <= |keys|
      ensures var n := |victims|;
              var (m, answer) := Consume(Swept(old(buckets), 2 * policy.window, sweptAt),
                                         keys[..n], policy, at[..n], victims);
              && buckets == m && ok == answer.allowed && (ok ==> n == |keys|)
              && seconds == if ok then 0 else RetrySeconds(answer.wait)
    {
      Cleanup(2 * policy.window, sweptAt);
      ghost var m0 := buckets;
      assert SeenBy(m0, sweptAt);
      victims := [];
      var i := 0;
      while i < |keys|
        invariant Valid() && 0 <= i <= |keys| && |victims| == i
        invariant i < |keys| ==> SeenBy(buckets, at[i])
        invariant Consume(m0, keys[..i], policy, at[..i], victims) == (buckets, Answer(true, 0))
      {
        var answer, victim := Allow(keys[i], policy, at[i]);
        ConsumeNext(m0, keys, policy, at, victims, victim);
        victims := victims + [victim];
        if !answer.allowed {
          return RetrySeconds(answer.wait), false, victims;
        }
        i := i + 1;
      }
      seconds, ok := 0, true;
    }
  }

  lemma ConsumeNext(m: Buckets, keys: seq<string>, policy: RatePolicy, at: seq<int>, victims: seq<string>,
                    victim: string)
    requires |keys| == |at| && |victims| < |keys|
    requires Consume(m, keys[..|victims|], policy, at[..|victims|], victims).1.allowed
    ensures Consume(m, keys[..|victims| + 1], policy, at[..|victims| + 1], victims + [victim])
         == Attempt(Consume(m, keys[..|victims|], policy, at[..|victims|], victims).0,
                    keys[|victims|], policy, at[|victims|], victim)
  {
    var i := |victims|;
    ConsumeOneMore(m, keys[..i], policy, at[..i], victims, keys[i], at[i], victim);
    assert keys[..i + 1] == keys[..i] + [keys[i]] && at[..i + 1] == at[..i] + [at[i]];
  }

  lemma {:induction false} ConsumeOneMore(m: Buckets, keys: seq<string>, policy: RatePolicy, at: seq<int>,
                                          victims: seq<string>,
                                          key: string, now: int, victim: string)
    requires |keys| == |at| == |victims| && Consume(m, keys, policy, at, victims).1.allowed
    ensures Consume(m, keys + [key], policy, at + [now], victims + [victim])
         == Attempt(Consume(m, keys, policy, at, victims).0, key, policy, now, victim)
    decreases |keys|
  {
    if keys == [] {
      assert keys + [key] == [key] && at + [now] == [now] && victims + [victim] == [victim];
      assert [key][1..] == [] && [now][1..] == [] && [victim][1..] == [];
    } else {
      ConsumeOneMore(Attempt(m, keys[0], policy, at[0], victims[0]).0, keys[1..], policy, at[1..], victims[1..],
                     key, now, victim);
      assert (keys + [key])[1..] == keys[1..] + [key] && (at + [now])[1..] == at[1..] + [now]
          && (victims + [victim])[1..] == victims[1..] + [victim];
    }
  }

  /** A refusal under an earlier key leaves the buckets of the later keys unconsumed. */
  lemma RefusalStopsConsuming(m: Buckets, first: string, second: string, policy: RatePolicy, at: seq<int>,
                              victims: seq<string>)
    requires |at| == |victims| == 2 && first != second
    requires !Attempt(m, first, policy, at[0], victims[0]).1.allowed
    ensures var (m', answer) := Consume(m, [first, second], policy, at, victims);
            && answer == Attempt(m, first, policy, at[0], victims[0]).1
            && (second in m && (NeedsRoom(m, first) ==> victims[0] != second) ==>
                  second in m' && m'[second] == m[second])
            && (second !in m ==> second !in m')
  {}

  // ---------------------------------------------------------------- bounded memory

  lemma SweptIsSmaller(m: Buckets, maxAge: int, now: int)
    requires WellFormed(m)
    ensures WellFormed(Swept(m, maxAge, now))
  {
    var kept := Swept(m, maxAge, now);
    assert kept.Keys <= m.Keys;
    SubsetSize(kept.Keys, m.Keys);
    assert |kept| == |kept.Keys| && |m| == |m.Keys|;
  }

  lemma {:induction false} SubsetSize<T>(a: set<T>, b: set<T>)
    requires a <= b
    ensures |a| <= |b|
  {
    if a != {} {
      var x :| x in a;
      SubsetSize(a - {x}, b - {x});
    }
  }

  /** The number of buckets never exceeds the bound. */
  lemma AttemptKeepsWellFormed(m: Buckets, key: string, policy: RatePolicy, now: int, victim: string)
    requires WellFormed(m) && key != "" && now > 0
    requires SeenBy(m, now)
    requires Enabled(policy) && NeedsRoom(m, key) ==> victim in m
    ensures WellFormed(Attempt(m, key, policy, now, victim).0)
  {
    if Enabled(policy) {
      var room := MakeRoom(m, key, victim);
      assert room.Keys == if NeedsRoom(m, key) then m.Keys - {victim} else m.Keys;
      assert |room.Keys| == |room| && |m.Keys| == |m|;
      var m' := Attempt(m, key, policy, now, victim).0;
      assert m'.Keys == room.Keys + {key};
      assert |m'.Keys| == |m'|;
    }
  }

  // ---------------------------------------------------------------- replaying a history

  ghost predicate Ascending(h: seq<int>) {
    forall i, j | 0 <= i < j < |h| :: h[i] <= h[j]
  }

  /** The attempt that opened the window of attempt i: windows are taken greedily, each anchored at the
      first attempt that no earlier window covers. */
  function Anchor(h: seq<int>, window: int, i: nat): (a: nat)
    requires i < |h|
    ensures a <= i
  {
    if i == 0 then 0
    else
      var a := Anchor(h, window, i - 1);
      if h[i] >= h[a] + window then i else a
  }

  /** Fewer than `limit` earlier attempts in its window. */
  predicate Allowed(h: seq<int>, policy: RatePolicy, i: nat)
    requires i < |h|
  {
    i - Anchor(h, policy.window, i) < policy.limit
  }

  lemma {:induction false} AnchorOfPrefix(h: seq<int>, x: int, window: int, i: nat)
    requires i < |h|
    ensures Anchor(h + [x], window, i) == Anchor(h, window, i)
  {
    if i > 0 {
      AnchorOfPrefix(h, x, window, i - 1);
    }
  }

  function Min(a: int, b: int): int {
    if a <= b then a else b
  }

  /** The bucket that summarises a non-empty history. */
  function Summary(h: seq<int>, policy: RatePolicy): Bucket
    requires h != [] && policy.limit > 0
  {
    var a := Anchor(h, policy.window, |h| - 1);
    Bucket(Min(policy.limit, |h| - a), h[a], h[|h| - 1])
  }

  /** The buckets stand for a key's history at time `clock`: its bucket is the summary, or it has none and
      any window it had is over. */
  ghost predicate StandsFor(m: Buckets, key: string, h: seq<int>, policy: RatePolicy, clock: int)
    requires Enabled(policy)
  {
    && Ascending(h) && (forall i | 0 <= i < |h| :: 0 < h[i] <= clock)
    && (key in m ==> h != [] && m[key] == Summary(h, policy))
    && (key !in m && h != [] ==> clock >= h[Anchor(h, policy.window, |h| - 1)] + policy.window)
  }

  datatype LimiterEvent =
    | Tried(key: string, policy: RatePolicy, at: int, victim: string)
    | Sweep(maxAge: int, at: int)

  function After(m: Buckets, e: LimiterEvent): Buckets {
    match e
    case Tried(key, policy, at, victim) => Attempt(m, key, policy, at, victim).0
    case Sweep(maxAge, at) => Swept(m, maxAge, at)
  }

  /** An event the limiter can meet at or after `clock`: the given key keeps its policy, and when a bucket
      must go it is one of those seen least recently. */
  ghost predicate Legal(m: Buckets, e: LimiterEvent, clock: int, key: string, policy: RatePolicy) {
    && e.at >= clock && e.at > 0
    && (e.Tried? ==>
          && e.key != "" && (e.key == key ==> e.policy == policy)
          && (Enabled(e.policy) && NeedsRoom(m, e.key) ==> LeastRecentlySeen(m, e.victim)))
  }

  /** A legal event that does not evict the key and, if it is a sweep, has an age of at least its window. */
  ghost predicate Fair(m: Buckets, e: LimiterEvent, clock: int, key: string, policy: RatePolicy) {
    && Legal(m, e, clock, key, policy)
    && (e.Tried? && Enabled(e.policy) && NeedsRoom(m, e.key) ==> e.victim != key)
    && (e.Sweep? ==> e.maxAge >= policy.window)
  }

  ghost predicate LegalRun(m: Buckets, es: seq<LimiterEvent>, clock: int, key: string, policy: RatePolicy)
    decreases es
  {
    es != [] ==> Legal(m, es[0], clock, key, policy) && LegalRun(After(m, es[0]), es[1..], es[0].at, key, policy)
  }

  ghost predicate FairRun(m: Buckets, es: seq<LimiterEvent>, clock: int, key: string, policy: RatePolicy)
    decreases es
  {
    es != [] ==> Fair(m, es[0], clock, key, policy) && FairRun(After(m, es[0]), es[1..], es[0].at, key, policy)
  }

  /** The answers a key's attempts get in a run. */
  function Answers(m: Buckets, es: seq<LimiterEvent>, key: string): seq<bool>
    decreases es
  {
    if es == [] then []
    else
      var rest := Answers(After(m, es[0]), es[1..], key);
      match es[0]
      case Tried(k, p, at, victim) => if k == key then [Attempt(m, k, p, at, victim).1.allowed] + rest else rest
      case Sweep(_, _) => rest
  }

  /** The times of a key's attempts in a run. */
  function History(es: seq<LimiterEvent>, key: string): seq<int> {
    if es == [] then []
    else (if es[0].Tried? && es[0].key == key then [es[0].at] else []) + History(es[1..], key)
  }

  /** The answers of the replay to the attempts from number n on. */
  function Replayed(h: seq<int>, policy: RatePolicy, n: nat): seq<bool>
    requires n <= |h|
    decreases |h| - n
  {
    if n == |h| then [] else [Allowed(h, policy, n)] + Replayed(h, policy, n + 1)
  }

  /** Where one more attempt is anchored. */
  lemma AnchorOfNext(h: seq<int>, window: int, at: int)
    requires h != []
    ensures var a := Anchor(h, window, |h| - 1);
            Anchor(h + [at], window, |h|) == if at >= h[a] + window then |h| else a
  {
    var a := Anchor(h, window, |h| - 1);
    AnchorOfPrefix(h, at, window, |h| - 1);
    assert (h + [at])[a] == h[a] && (h + [at])[|h|] == at;
  }

  /** One more attempt, on the summary and on the history. */
  lemma SummaryStep(h: seq<int>, policy: RatePolicy, at: int)
    requires Enabled(policy) && h != [] && 0 < h[Anchor(h, policy.window, |h| - 1)]
    ensures var b := CurrentBucket(Summary(h, policy), policy, at);
            && (b.count < policy.limit <==> Allowed(h + [at], policy, |h|))
            && Summary(h + [at], policy) == Bucket(Min(policy.limit, b.count + 1), b.windowStart, at)
  {
    AnchorOfNext(h, policy.window, at);
    var n, a, a' := |h|, Anchor(h, policy.window, |h| - 1), Anchor(h + [at], policy.window, |h|);
    if at >= h[a] + policy.window {
      assert a' == n && (h + [at])[n] == at;
    } else {
      assert a' == a && (h + [at])[a] == h[a] && (h + [at])[n] == at;
    }
  }

  lemma OwnAttempt(m: Buckets, key: string, h: seq<int>, policy: RatePolicy, clock: int, at: int, victim: string)
    requires Enabled(policy) && StandsFor(m, key, h, policy, clock) && at >= clock && at > 0
    ensures var (m', answer) := Attempt(m, key, policy, at, victim);
            && StandsFor(m', key, h + [at], policy, at)
            && (answer.allowed <==> Allowed(h + [at], policy, |h|))
  {
    OwnDecision(Lookup(m, key), h, policy, at);
    assert Attempt(m, key, policy, at, victim).0[key] == Summary(h + [at], policy);
  }

  /** One more attempt on a bucket that stands for a history, or on none when its window is over. */
  lemma OwnDecision(b: Bucket, h: seq<int>, policy: RatePolicy, at: int)
    requires Enabled(policy) && at > 0
    requires || (h == [] && b == ZERO)
             || (h != [] && 0 < h[Anchor(h, policy.window, |h| - 1)]
                 && (b == Summary(h, policy)
                     || (b == ZERO && at >= h[Anchor(h, policy.window, |h| - 1)] + policy.window)))
    ensures var (b', answer) := Decide(b, policy, at);
            b' == Summary(h + [at], policy) && (answer.allowed <==> Allowed(h + [at], policy, |h|))
  {
    if h == [] {
      assert h + [at] == [at] && Anchor([at], policy.window, 0) == 0;
    } else {
      SummaryStep(h, policy, at);
      assert CurrentBucket(b, policy, at) == CurrentBucket(Summary(h, policy), policy, at);
    }
  }

  lemma OtherEvent(m: Buckets, key: string, h: seq<int>, policy: RatePolicy, clock: int, e: LimiterEvent)
    requires Enabled(policy) && StandsFor(m, key, h, policy, clock) && Fair(m, e, clock, key, policy)
    requires e.Tried? ==> e.key != key
    ensures StandsFor(After(m, e), key, h, policy, e.at)
  {
    if e.Sweep? && key in m && key !in After(m, e) {
      assert h[Anchor(h, policy.window, |h| - 1)] <= h[|h| - 1];
    }
  }

  lemma ReplayOneMore(h: seq<int>, at: int, more: seq<int>, policy: RatePolicy)
    ensures Replayed(h + ([at] + more), policy, |h|)
         == [Allowed(h + [at], policy, |h|)] + Replayed(h + [at] + more, policy, |h| + 1)
  {
    assert h + ([at] + more) == h + [at] + more;
    AllowedOfPrefix(h + [at], more, policy, |h|);
  }

  lemma {:induction false} AnswersFollowHistory(m: Buckets, es: seq<LimiterEvent>, clock: int, key: string,
                                                policy: RatePolicy,
                                                h: seq<int>)
    requires Enabled(policy) && StandsFor(m, key, h, policy, clock) && FairRun(m, es, clock, key, policy)
    ensures Answers(m, es, key) == Replayed(h + History(es, key), policy, |h|)
    decreases es
  {
    if es == [] {
      assert h + History(es, key) == h;
    } else {
      var e := es[0];
      if e.Tried? && e.key == key {
        OwnAttempt(m, key, h, policy, clock, e.at, e.victim);
        assert History(es, key) == [e.at] + History(es[1..], key);
        AnswersFollowHistory(After(m, e), es[1..], e.at, key, policy, h + [e.at]);
        ReplayOneMore(h, e.at, History(es[1..], key), policy);
      } else {
        OtherEvent(m, key, h, policy, clock, e);
        AnswersFollowHistory(After(m, e), es[1..], e.at, key, policy, h);
        assert History(es, key) == History(es[1..], key);
      }
    }
  }

  lemma {:induction false} AllowedOfPrefix(h: seq<int>, more: seq<int>, policy: RatePolicy, i: nat)
    requires i < |h|
    ensures Allowed(h + more, policy, i) == Allowed(h, policy, i)
    decreases |more|
  {
    if more == [] {
      assert h + more == h;
    } else {
      AllowedOfPrefix(h + [more[0]], more[1..], policy, i);
      assert h + more == h + [more[0]] + more[1..];
      AnchorOfPrefix(h, more[0], policy.window, i);
    }
  }

  /** Refinement: under one fixed policy and without eviction of the key, the limiter answers each attempt
      exactly as a replay of the key's whole history would. Sweeps of at least the window, and everything
      that happens under other keys, evictions included, cannot be observed through this key. */
  lemma LimiterRefinesReplay(es: seq<LimiterEvent>, key: string, policy: RatePolicy)
    requires Enabled(policy) && FairRun(map[], es, 0, key, policy)
    ensures Answers(map[], es, key) == Replayed(History(es, key), policy, 0)
  {
    AnswersFollowHistory(map[], es, 0, key, policy, []);
    assert [] + History(es, key) == History(es, key);
  }

  /** Two runs with the same attempts on a key answer them alike, whatever else differs between them. */
  lemma OnlyOwnHistoryMatters(es: seq<LimiterEvent>, es': seq<LimiterEvent>, key: string, policy: RatePolicy)
    requires Enabled(policy) && FairRun(map[], es, 0, key, policy) && FairRun(map[], es', 0, key, policy)
    requires History(es, key) == History(es', key)
    ensures Answers(map[], es, key) == Answers(map[], es', key)
  {
    LimiterRefinesReplay(es, key, policy);
    LimiterRefinesReplay(es', key, policy);
  }

  // ---------------------------------------------------------------- sweeping too early

  /** The answers to attempts at the given times, from one bucket on. */
  function Decisions(b: Bucket, policy: RatePolicy, times: seq<int>): seq<bool>
    decreases |times|
  {
    if times == [] then []
    else
      var (b', answer) := Decide(b, policy, times[0]);
      [answer.allowed] + Decisions(b', policy, times[1..])
  }

  function Repeat(t: int, n: nat): seq<int> {
    seq(n, _ => t)
  }

  /** Within one window the n-th further attempt is allowed iff the count leaves room for it. */
  lemma {:induction false} NthAtOnce(b: Bucket, policy: RatePolicy, t: int, n: nat)
    requires n > 0 && b.windowStart != 0 && t < b.windowStart + policy.window
    ensures |Decisions(b, policy, Repeat(t, n))| == n
    ensures Decisions(b, policy, Repeat(t, n))[n - 1] <==> b.count + n - 1 < policy.limit
    decreases n
  {
    var b' := Decide(b, policy, t).0;
    assert Repeat(t, n)[1..] == Repeat(t, n - 1);
    if n > 1 {
      NthAtOnce(b', policy, t, n - 1);
    } else {
      assert Decisions(b', policy, Repeat(t, 0)) == [];
    }
  }

  /** No attempts from `now` on can tell the bucket from a missing one. */
  ghost predicate ForgetsUnobserved(b: Bucket, policy: RatePolicy, now: int) {
    forall times: seq<int> | Ascending(times) && (forall t | t in times :: t >= now) ::
      Decisions(ZERO, policy, times) == Decisions(b, policy, times)
  }

  /** Deleting a bucket in use cannot be observed by any later attempts if and only if its window is over.
      Sweeping by age of the last attempt is therefore safe when the age is at least the window, and a sweep
      with a smaller age, on behalf of an action with a shorter window, can hand a key a new window early. */
  lemma {:induction false} ForgettingIsUnobservableIffWindowOver(b: Bucket, policy: RatePolicy, now: int)
    requires Enabled(policy) && 1 <= b.count <= policy.limit && 0 < b.windowStart <= now
    ensures ForgetsUnobserved(b, policy, now) <==> now >= b.windowStart + policy.window
  {
    if now >= b.windowStart + policy.window {
      forall times: seq<int> | Ascending(times) && (forall t | t in times :: t >= now)
        ensures Decisions(ZERO, policy, times) == Decisions(b, policy, times)
      {
        if times != [] {
          assert times[0] in times;
          assert Decide(ZERO, policy, times[0]) == Decide(b, policy, times[0]);
        }
      }
    } else {
      var n := policy.limit;
      NthAtOnce(b, policy, now, n);
      NthFromZero(policy, now, n);
      assert Ascending(Repeat(now, n)) && forall t | t in Repeat(now, n) :: t >= now;
    }
  }

  lemma NthFromZero(policy: RatePolicy, t: int, n: nat)
    requires Enabled(policy) && 0 < n <= policy.limit && t > 0
    ensures |Decisions(ZERO, policy, Repeat(t, n))| == n && Decisions(ZERO, policy, Repeat(t, n))[n - 1]
  {
    var b := Decide(ZERO, policy, t).0;
    assert b == Bucket(1, t, t);
    assert Repeat(t, n)[1..] == Repeat(t, n - 1);
    if n > 1 {
      NthAtOnce(b, policy, t, n - 1);
    } else {
      assert Decisions(b, policy, Repeat(t, 0)) == [];
    }
  }

  // ---------------------------------------------------------------- runs without eviction of the key

  ghost predicate NeverEvicts(m: Buckets, es: seq<LimiterEvent>, key: string)
    decreases es
  {
    es != [] ==>
      && (es[0].Tried? && Enabled(es[0].policy) && NeedsRoom(m, es[0].key) ==> es[0].victim != key)
      && NeverEvicts(After(m, es[0]), es[1..], key)
  }

  predicate SweptFor(es: seq<LimiterEvent>, window: int) {
    forall e | e in es && e.Sweep? :: e.maxAge >= window
  }

  lemma {:induction false} LongSweepsAreFair(m: Buckets, es: seq<LimiterEvent>, clock: int, key: string,
                                             policy: RatePolicy)
    requires LegalRun(m, es, clock, key, policy) && NeverEvicts(m, es, key) && SweptFor(es, policy.window)
    ensures FairRun(m, es, clock, key, policy)
    decreases es
  {
    if es != [] {
      LongSweepsAreFair(After(m, es[0]), es[1..], es[0].at, key, policy);
    }
  }

  // ---------------------------------------------------------------- the replay, attempt by attempt

  lemma {:induction false} OneAnchor(policy: RatePolicy, h: seq<int>, i: nat)
    requires i < |h| && forall j | 0 <= j <= i :: h[0] <= h[j] < h[0] + policy.window
    ensures Anchor(h, policy.window, i) == 0
  {
    if i > 0 {
      OneAnchor(policy, h, i - 1);
    }
  }

  lemma {:induction false} ReplayedAt(h: seq<int>, policy: RatePolicy, n: nat, i: nat)
    requires n <= i < |h|
    ensures |Replayed(h, policy, n)| == |h| - n && Replayed(h, policy, n)[i - n] == Allowed(h, policy, i)
    decreases |h| - n
  {
    ReplayedLength(h, policy, n);
    if n < i {
      ReplayedAt(h, policy, n + 1, i);
    }
  }

  lemma {:induction false} ReplayedLength(h: seq<int>, policy: RatePolicy, n: nat)
    requires n <= |h|
    ensures |Replayed(h, policy, n)| == |h| - n
    decreases |h| - n
  {
    if n < |h| {
      ReplayedLength(h, policy, n + 1);
    }
  }

  // ---------------------------------------------------------------- when a key can be evicted

  /** The other keys that a history of events has tried at time t or later. */
  function OthersSince(past: seq<LimiterEvent>, key: string, t: int): set<string> {
    set e | e in past && e.Tried? && e.key != key && e.at >= t :: e.key
  }

  /** Whenever another key is tried, fewer than MAX_BUCKETS - 1 other keys have been tried since the last attempt
      under the given key. `seen` is the time of that attempt, 0 when there was none. */
  predicate Uncrowded(past: seq<LimiterEvent>, seen: int, es: seq<LimiterEvent>, key: string)
    decreases es
  {
    es != [] ==>
      && (seen > 0 && es[0].Tried? && es[0].key != key ==> |OthersSince(past, key, seen)| < MAX_BUCKETS - 1)
      && Uncrowded(past + [es[0]], if es[0].Tried? && es[0].key == key then es[0].at else seen, es[1..], key)
  }

  /** Every bucket was last seen at a recorded attempt under its key. */
  ghost predicate Recorded(m: Buckets, past: seq<LimiterEvent>, key: string, seen: int) {
    && (forall k | k in m :: exists e | e in past :: e.Tried? && e.key == k && e.at == m[k].lastSeen)
    && (key in m ==> m[key].lastSeen == seen && seen > 0)
  }

  lemma RecordedStep(m: Buckets, past: seq<LimiterEvent>, key: string, seen: int, e: LimiterEvent)
    requires Recorded(m, past, key, seen) && e.at > 0
    requires e.Tried? && e.key == key ==> Enabled(e.policy)
    ensures Recorded(After(m, e), past + [e], key, if e.Tried? && e.key == key then e.at else seen)
  {
    var m' := After(m, e);
    forall k | k in m' ensures exists f | f in past + [e] :: f.Tried? && f.key == k && f.at == m'[k].lastSeen {
      if k in m && m'[k].lastSeen == m[k].lastSeen {
        var f :| f in past && f.Tried? && f.key == k && f.at == m[k].lastSeen;
        assert f in past + [e];
      } else {
        assert e in past + [e];
      }
    }
  }

  /** A key that is evicted was crowded out: every other bucket was seen no earlier. */
  lemma EvictedOnlyWhenCrowded(m: Buckets, past: seq<LimiterEvent>, key: string, seen: int)
    requires Recorded(m, past, key, seen) && |m| >= MAX_BUCKETS && LeastRecentlySeen(m, key)
    ensures |OthersSince(past, key, seen)| >= MAX_BUCKETS - 1
  {
    var others := m.Keys - {key};
    forall k | k in others ensures k in OthersSince(past, key, seen) {
      var e :| e in past && e.Tried? && e.key == k && e.at == m[k].lastSeen;
    }
    SubsetSize(others, OthersSince(past, key, seen));
    assert |m.Keys| == |m|;
  }

  lemma StartedStep(m: Buckets, e: LimiterEvent, key: string)
    requires (key in m ==> 0 < m[key].windowStart) && e.at > 0
    ensures key in After(m, e) ==> 0 < After(m, e)[key].windowStart
  {}

  lemma UncrowdedIsNotEvicted(m: Buckets, past: seq<LimiterEvent>, key: string, seen: int, e: LimiterEvent)
    requires Recorded(m, past, key, seen) && e.Tried? && NeedsRoom(m, e.key) && LeastRecentlySeen(m, e.victim)
    requires seen > 0 && e.key != key ==> |OthersSince(past, key, seen)| < MAX_BUCKETS - 1
    requires key in m ==> 0 < m[key].windowStart
    ensures e.victim != key
  {
    if e.victim == key {
      EvictedOnlyWhenCrowded(m, past, key, seen);
    }
  }

  lemma {:induction false} UncrowdedRunsAreFair(m: Buckets, past: seq<LimiterEvent>, seen: int, es: seq<LimiterEvent>,
                                                clock: int,
                                                key: string, policy: RatePolicy)
    requires LegalRun(m, es, clock, key, policy) && SweptFor(es, policy.window)
    requires Enabled(policy) && Recorded(m, past, key, seen) && Uncrowded(past, seen, es, key)
    requires key in m ==> 0 < m[key].windowStart
    ensures FairRun(m, es, clock, key, policy)
    decreases es
  {
    if es != [] {
      var e := es[0];
      if e.Tried? && Enabled(e.policy) && NeedsRoom(m, e.key) {
        UncrowdedIsNotEvicted(m, past, key, seen, e);
      }
      RecordedStep(m, past, key, seen, e);
      StartedStep(m, e, key);
      UncrowdedRunsAreFair(After(m, e), past + [e], if e.Tried? && e.key == key then e.at else seen, es[1..], e.at,
                           key, policy);
    }
  }

  /** The refinement without assuming that the key is not evicted: it is enough that it is tried again before
      MAX_BUCKETS - 1 other keys have been. */
  lemma LimiterRefinesReplayUncrowded(es: seq<LimiterEvent>, key: string, policy: RatePolicy)
    requires Enabled(policy) && LegalRun(map[], es, 0, key, policy) && SweptFor(es, policy.window)
    requires Uncrowded([], 0, es, key)
    ensures Answers(map[], es, key) == Replayed(History(es, key), policy, 0)
  {
    UncrowdedRunsAreFair(map[], [], 0, es, 0, key, policy);
    LimiterRefinesReplay(es, key, policy);
  }

  // ---------------------------------------------------------------- how many get through

  lemma {:induction false} AnchorCovers(h: seq<int>, window: int, i: nat)
    requires i < |h| && window > 0 && Ascending(h)
    ensures var a := Anchor(h, window, i);
            h[a] <= h[i] < h[a] + window && Anchor(h, window, a) == a
  {
    if i > 0 {
      AnchorCovers(h, window, i - 1);
    }
  }

  /** A later attempt is in the same window, or in one that starts after the earlier attempt and at least
      one window length after the earlier window's start. */
  lemma {:induction false} LaterAnchor(h: seq<int>, window: int, i: nat, j: nat)
    requires i <= j < |h| && window > 0 && Ascending(h)
    ensures var a, b := Anchor(h, window, i), Anchor(h, window, j);
            b == a || (b > i && h[b] >= h[a] + window)
    decreases j - i
  {
    if i < j {
      LaterAnchor(h, window, i, j - 1);
      var a, c := Anchor(h, window, i), Anchor(h, window, j - 1);
      assert Anchor(h, window, j) == if h[j] >= h[c] + window then j else c;
      assert c == a || h[c] >= h[a] + window;
    }
  }

  /** The n integers from `from` on. */
  function Range(from: int, n: nat): set<int> {
    if n == 0 then {} else Range(from, n - 1) + {from + n - 1}
  }

  lemma {:induction false} RangeSize(from: int, n: nat)
    ensures |Range(from, n)| == n
    ensures forall k: int :: k in Range(from, n) <==> from <= k < from + n
  {
    if n > 0 {
      RangeSize(from, n - 1);
    }
  }

  /** The allowed attempts of the window that attempt `a` opened. */
  function AllowedInWindow(h: seq<int>, policy: RatePolicy, a: nat): set<int> {
    set i | 0 <= i < |h| && Anchor(h, policy.window, i) == a && Allowed(h, policy, i)
  }

  /** Each anchored window contains at most `limit` allowed attempts. */
  lemma WindowBound(h: seq<int>, policy: RatePolicy, a: nat)
    requires Enabled(policy)
    ensures |AllowedInWindow(h, policy, a)| <= policy.limit
  {
    RangeSize(a, policy.limit);
    SubsetSize(AllowedInWindow(h, policy, a), Range(a, policy.limit));
  }

  /** The attempts that are allowed in the half-open interval of one window length from `t`. */
  function AllowedFrom(h: seq<int>, policy: RatePolicy, t: int): set<int> {
    set i | 0 <= i < |h| && t <= h[i] < t + policy.window && Allowed(h, policy, i)
  }

  /** Sliding bound: any interval as long as the window, wherever it starts, contains at most twice
      `limit` allowed attempts of a key. */
  lemma SlidingBound(h: seq<int>, policy: RatePolicy, t: int)
    requires Enabled(policy) && Ascending(h)
    ensures |AllowedFrom(h, policy, t)| <= 2 * policy.limit
  {
    var s := AllowedFrom(h, policy, t);
    var first := 0;
    while first < |h| && first !in s
      invariant 0 <= first <= |h| && forall i | 0 <= i < first :: i !in s
    {
      first := first + 1;
    }
    if first == |h| {
      assert s == {};
    } else {
      var a := Anchor(h, policy.window, first);
      var later := set i | i in s && Anchor(h, policy.window, i) != a;
      var b := a;
      if later != {} {
        var i :| i in later;
        b := Anchor(h, policy.window, i);
        forall j | j in later ensures Anchor(h, policy.window, j) == b {
          OneLaterWindow(h, policy, t, first, i, j);
        }
      }
      RangeSize(a, policy.limit);
      RangeSize(b, policy.limit);
      forall i | i in s ensures i in Range(a, policy.limit) + Range(b, policy.limit) {
        assert Anchor(h, policy.window, i) == a || i in later;
      }
      SubsetSize(s, Range(a, policy.limit) + Range(b, policy.limit));
    }
  }

  lemma OneLaterWindow(h: seq<int>, policy: RatePolicy, t: int, first: nat, i: nat, j: nat)
    requires Enabled(policy) && Ascending(h)
    requires first <= i < |h| && first <= j < |h| && t <= h[first]
             && h[i] < t + policy.window && h[j] < t + policy.window
    requires Anchor(h, policy.window, i) != Anchor(h, policy.window, first)
    requires Anchor(h, policy.window, j) != Anchor(h, policy.window, first)
    ensures Anchor(h, policy.window, i) == Anchor(h, policy.window, j)
  {
    var w := policy.window;
    LaterAnchor(h, w, first, i);
    LaterAnchor(h, w, first, j);
    AnchorCovers(h, w, i);
    AnchorCovers(h, w, j);
    if i <= j {
      LaterAnchor(h, w, i, j);
    } else {
      LaterAnchor(h, w, j, i);
    }
  }

  lemma {:induction false} HistoryAscends(m: Buckets, es: seq<LimiterEvent>, clock: int, key: string,
                                          policy: RatePolicy)
    requires LegalRun(m, es, clock, key, policy)
    ensures Ascending(History(es, key)) && forall t | t in History(es, key) :: clock <= t
    decreases es
  {
    if es != [] {
      HistoryAscends(After(m, es[0]), es[1..], es[0].at, key, policy);
      var rest := History(es[1..], key);
      assert forall i | 0 <= i < |rest| :: rest[i] in rest;
    }
  }

  lemma {:induction false} FairRunsAreLegal(m: Buckets, es: seq<LimiterEvent>, clock: int, key: string,
                                            policy: RatePolicy)
    requires FairRun(m, es, clock, key, policy)
    ensures LegalRun(m, es, clock, key, policy)
    decreases es
  {
    if es != [] {
      FairRunsAreLegal(After(m, es[0]), es[1..], es[0].at, key, policy);
    }
  }

  /** The attempts of a run, numbered among those of the key, that the limiter allowed in an interval of one
      window length from `t`. */
  function LetThrough(es: seq<LimiterEvent>, key: string, policy: RatePolicy, t: int): set<int> {
    var answers, times := Answers(map[], es, key), History(es, key);
    set i | 0 <= i < |answers| && i < |times| && answers[i] && t <= times[i] < t + policy.window
  }

  /** Those that it allowed in the window that attempt `a` opened. */
  function LetThroughWindow(es: seq<LimiterEvent>, key: string, policy: RatePolicy, a: nat): set<int> {
    var answers, times := Answers(map[], es, key), History(es, key);
    set i | 0 <= i < |answers| && i < |times| && answers[i] && Anchor(times, policy.window, i) == a
  }

  /** The sliding bound on the limiter's own answers: wherever an interval as long as the window starts, at most
      twice `limit` attempts of the key get through in it, and in each anchored window at most `limit`. */
  lemma LimiterBound(es: seq<LimiterEvent>, key: string, policy: RatePolicy, t: int, a: nat)
    requires Enabled(policy) && FairRun(map[], es, 0, key, policy)
    ensures |Answers(map[], es, key)| == |History(es, key)|
    ensures |LetThrough(es, key, policy, t)| <= 2 * policy.limit
    ensures |LetThroughWindow(es, key, policy, a)| <= policy.limit
  {
    var h := History(es, key);
    LimiterRefinesReplay(es, key, policy);
    ReplayedLength(h, policy, 0);
    FairRunsAreLegal(map[], es, 0, key, policy);
    HistoryAscends(map[], es, 0, key, policy);
    forall i | 0 <= i < |h| ensures Answers(map[], es, key)[i] == Allowed(h, policy, i) {
      ReplayedAt(h, policy, 0, i);
    }
    SlidingBound(h, policy, t);
    SubsetSize(LetThrough(es, key, policy, t), AllowedFrom(h, policy, t));
    WindowBound(h, policy, a);
    SubsetSize(LetThroughWindow(es, key, policy, a), AllowedInWindow(h, policy, a));
  }

  /** How a key's first window goes: exactly the first `limit` attempts get through in it, and the first attempt after
      it does. */
  predicate FirstWindow(answers: seq<bool>, h: seq<int>, limit: int, window: int) {
    forall i | 0 <= i < |h| && i < |answers| && (i == 0 || h[i - 1] < h[0] + window) ::
      answers[i] <==> i < limit || h[i] >= h[0] + window
  }

  lemma LimiterOpensAWindow(es: seq<LimiterEvent>, key: string, policy: RatePolicy)
    requires Enabled(policy) && FairRun(map[], es, 0, key, policy)
    ensures |Answers(map[], es, key)| == |History(es, key)|
    ensures FirstWindow(Answers(map[], es, key), History(es, key), policy.limit, policy.window)
  {
    var answers, h := Answers(map[], es, key), History(es, key);
    LimiterRefinesReplay(es, key, policy);
    ReplayedLength(h, policy, 0);
    FairRunsAreLegal(map[], es, 0, key, policy);
    HistoryAscends(map[], es, 0, key, policy);
    forall i | 0 <= i < |h| && (i == 0 || h[i - 1] < h[0] + policy.window)
      ensures answers[i] <==> i < policy.limit || h[i] >= h[0] + policy.window
    {
      ReplayedAt(h, policy, 0, i);
      if i > 0 {
        OneAnchor(policy, h, i - 1);
      }
    }
  }

  /** A policy without a limit or without a window limits nothing. */
  lemma {:induction false} DisabledPolicyLetsAllThrough(m: Buckets, es: seq<LimiterEvent>, key: string)
    requires forall e | e in es && e.Tried? && e.key == key :: e.policy.limit <= 0 || e.policy.window <= 0
    ensures forall answer | answer in Answers(m, es, key) :: answer
    decreases es
  {
    if es != [] {
      DisabledPolicyLetsAllThrough(After(m, es[0]), es[1..], key);
    }
  }

  // ---------------------------------------------------------------- retrying

  /** Waiting the advertised number of whole seconds is enough: if nothing else is tried under the key, its
      bucket, or no bucket at all if it was swept or evicted, allows the next attempt. */
  lemma AdvertisedWaitSuffices(m: Buckets, key: string, policy: RatePolicy, now: int, victim: string,
                               m': Buckets, later: int, victim': string)
    requires Enabled(policy) && !Attempt(m, key, policy, now, victim).1.allowed
    requires key in m' ==> m'[key] == Attempt(m, key, policy, now, victim).0[key]
    requires later >= now + RetrySeconds(Attempt(m, key, policy, now, victim).1.wait) * Schema.SECOND
    ensures Attempt(m', key, policy, later, victim').1.allowed
  {}

  /** The advertised wait is at least a second, covers the wait, and by less than a second unless it is one. */
  lemma AdvertisedWaitIsTight(wait: int)
    ensures RetrySeconds(wait) >= 1 && RetrySeconds(wait) * 1_000_000_000 >= wait
    ensures RetrySeconds(wait) > 1 ==> (RetrySeconds(wait) - 1) * 1_000_000_000 < wait
  {}

  /** The refusal lasts: until the window ends, a further attempt is refused too. */
  lemma RefusedUntilWindowEnds(m: Buckets, key: string, policy: RatePolicy, now: int, victim: string, later: int,
                               victim': string)
    requires Enabled(policy) && now > 0 && !Attempt(m, key, policy, now, victim).1.allowed
    requires Lookup(m, key).windowStart >= 0
    requires now <= later < now + Attempt(m, key, policy, now, victim).1.wait
    ensures !Attempt(Attempt(m, key, policy, now, victim).0, key, policy, later, victim').1.allowed
  {}
}

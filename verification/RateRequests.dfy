/**
 The limiter as the handlers use it. A request of some action sweeps all buckets with twice that action's window and
 then tries the client's bucket and, when an account is named and the client is not refused, the account's bucket.
 Runs mix requests of all actions.
 */
module RateRequests {
  import Schema
  import opened RateLimiter

  const MINUTE := 60 * Schema.SECOND

  datatype Action = Pair | DeviceRegister | AuthTest | Login | Register | Forgot | Reset | AdminReset

  /** ratePolicies */
  function PolicyOf(a: Action): RatePolicy {
    match a
    case Pair => RatePolicy(5, 15 * MINUTE)
    case DeviceRegister => RatePolicy(5, 15 * MINUTE)
    case AuthTest => RatePolicy(10, 10 * MINUTE)
    case Login => RatePolicy(10, 10 * MINUTE)
    case Register => RatePolicy(5, 60 * MINUTE)
    case Forgot => RatePolicy(5, 60 * MINUTE)
    case Reset => RatePolicy(8, 60 * MINUTE)
    case AdminReset => RatePolicy(8, 60 * MINUTE)
  }

  predicate IsHourly(a: Action) {
    a.Register? || a.Forgot? || a.Reset? || a.AdminReset?
  }

  function NameOf(a: Action): string {
    match a
    case Pair => "pair"
    case DeviceRegister => "device-register"
    case AuthTest => "auth-test"
    case Login => "login"
    case Register => "register"
    case Forgot => "forgot"
    case Reset => "reset"
    case AdminReset => "admin-reset"
  }

  /** One call of rateRetryAfter: `account` is the digest of the account's name, "" when none is given; the limiter
      reads the clock at the sweep and at each attempt, and names a bucket to evict when it must evict one. */
  datatype Request = Request(action: Action, ip: string, account: string, sweptAt: int, at: int, again: int,
                             victim: string, victim': string)

  function IpKey(r: Request): string {
    NameOf(r.action) + ":ip:" + r.ip
  }

  function AccountKey(r: Request): string {
    NameOf(r.action) + ":account:" + r.account
  }

  predicate IsKeyOf(key: string, a: Action) {
    NameOf(a) + ":" <= key
  }

  // ---------------------------------------------------------------- what a request does to the limiter

  function SweepOf(r: Request): LimiterEvent {
    Sweep(2 * PolicyOf(r.action).window, r.sweptAt)
  }

  function FirstTry(r: Request): LimiterEvent {
    Tried(IpKey(r), PolicyOf(r.action), r.at, r.victim)
  }

  function SecondTry(r: Request): LimiterEvent {
    Tried(AccountKey(r), PolicyOf(r.action), r.again, r.victim')
  }

  /** The client's bucket lets the request through and an account is named. */
  predicate GoesOn(m: Buckets, r: Request) {
    r.account != "" && Attempt(After(m, SweepOf(r)), IpKey(r), PolicyOf(r.action), r.at, r.victim).1.allowed
  }

  function EventsOf(m: Buckets, r: Request): seq<LimiterEvent> {
    if GoesOn(m, r) then [SweepOf(r), FirstTry(r), SecondTry(r)] else [SweepOf(r), FirstTry(r)]
  }

  function AfterAll(m: Buckets, es: seq<LimiterEvent>): Buckets
    decreases es
  {
    if es == [] then m else AfterAll(After(m, es[0]), es[1..])
  }

  /** The limiter's events in a run of requests. */
  function Expand(m: Buckets, rs: seq<Request>): seq<LimiterEvent>
    decreases rs
  {
    if rs == [] then []
    else
      var es := EventsOf(m, rs[0]);
      es + Expand(AfterAll(m, es), rs[1..])
  }

  lemma AfterTwo(m: Buckets, a: LimiterEvent, b: LimiterEvent)
    ensures AfterAll(m, [a, b]) == After(After(m, a), b)
  {
    assert [a, b][1..] == [b] && [b][1..] == [];
    assert AfterAll(After(After(m, a), b), []) == After(After(m, a), b);
    assert AfterAll(After(m, a), [b]) == After(After(m, a), b);
  }

  lemma AfterThree(m: Buckets, a: LimiterEvent, b: LimiterEvent, c: LimiterEvent)
    ensures AfterAll(m, [a, b, c]) == After(After(After(m, a), b), c)
  {
    assert [a, b, c][1..] == [b, c];
    AfterTwo(After(m, a), b, c);
  }

  lemma ConsumeOne(m: Buckets, key: string, policy: RatePolicy, at: int, victim: string)
    ensures Consume(m, [key], policy, [at], [victim]) == Attempt(m, key, policy, at, victim)
  {
    assert [key][1..] == [] && [at][1..] == [] && [victim][1..] == [];
  }

  lemma ConsumeTwo(m: Buckets, key: string, key': string, policy: RatePolicy, at: int, again: int, victim: string,
                   victim': string)
    requires Attempt(m, key, policy, at, victim).1.allowed
    ensures Consume(m, [key, key'], policy, [at, again], [victim, victim'])
         == Attempt(Attempt(m, key, policy, at, victim).0, key', policy, again, victim')
  {
    assert [key, key'][1..] == [key'] && [at, again][1..] == [again] && [victim, victim'][1..] == [victim'];
    ConsumeOne(Attempt(m, key, policy, at, victim).0, key', policy, again, victim');
  }

  /** Whether a request gets through: the client's bucket allows it, and the account's when one is named. */
  predicate LetsIn(m: Buckets, r: Request) {
    var swept, policy := After(m, SweepOf(r)), PolicyOf(r.action);
    var (first, answer) := Attempt(swept, IpKey(r), policy, r.at, r.victim);
    answer.allowed && (r.account != "" ==> Attempt(first, AccountKey(r), policy, r.again, r.victim').1.allowed)
  }

  /** The keys that a request tries, in order: the action and the address of the client, and the action and the digest
      of the account when one is named. */
  function KeysOf(r: Request): seq<string> {
    [IpKey(r)] + if r.account == "" then [] else [AccountKey(r)]
  }

  /** The events of a request are the sweep and the attempts that RateRetryAfter makes, and it gets through iff the
      method says so. */
  lemma RequestIsSweepAndConsume(m: Buckets, r: Request)
    ensures var n := |EventsOf(m, r)| - 1;
            var policy := PolicyOf(r.action);
            && n <= |KeysOf(r)|
            && var (m', answer) := Consume(Swept(m, 2 * policy.window, r.sweptAt), KeysOf(r)[..n], policy,
                                           [r.at, r.again][..n], [r.victim, r.victim'][..n]);
               && AfterAll(m, EventsOf(m, r)) == m' && (n == |KeysOf(r)| || !answer.allowed)
               && (LetsIn(m, r) <==> answer.allowed)
  {
    var swept, policy := After(m, SweepOf(r)), PolicyOf(r.action);
    if GoesOn(m, r) {
      AfterThree(m, SweepOf(r), FirstTry(r), SecondTry(r));
      ConsumeTwo(swept, IpKey(r), AccountKey(r), policy, r.at, r.again, r.victim, r.victim');
      assert KeysOf(r) == [IpKey(r), AccountKey(r)] == KeysOf(r)[..2] && [r.at, r.again][..2] == [r.at, r.again];
      assert [r.victim, r.victim'][..2] == [r.victim, r.victim'];
    } else {
      AfterTwo(m, SweepOf(r), FirstTry(r));
      ConsumeOne(swept, IpKey(r), policy, r.at, r.victim);
      assert KeysOf(r)[..1] == [IpKey(r)];
      assert [r.at, r.again][..1] == [r.at] && [r.victim, r.victim'][..1] == [r.victim];
    }
  }

  // ---------------------------------------------------------------- runs of requests are runs of the limiter

  function EndOf(m: Buckets, r: Request): int {
    if GoesOn(m, r) then r.again else r.at
  }

  /** A request that the limiter can meet at or after `clock`: the clock does not go back, and a bucket that must go
      is one of those seen least recently. */
  ghost predicate LegalRequest(m: Buckets, r: Request, clock: int) {
    var swept := After(m, SweepOf(r));
    var first := After(swept, FirstTry(r));
    && clock <= r.sweptAt <= r.at && 0 < r.sweptAt
    && (NeedsRoom(swept, IpKey(r)) ==> LeastRecentlySeen(swept, r.victim))
    && (GoesOn(m, r) ==>
          r.at <= r.again && (NeedsRoom(first, AccountKey(r)) ==> LeastRecentlySeen(first, r.victim')))
  }

  ghost predicate LegalRequests(m: Buckets, rs: seq<Request>, clock: int)
    decreases rs
  {
    rs != [] ==>
      && LegalRequest(m, rs[0], clock)
      && LegalRequests(AfterAll(m, EventsOf(m, rs[0])), rs[1..], EndOf(m, rs[0]))
  }

  lemma NoColon(a: Action)
    ensures forall i | 0 <= i < |NameOf(a)| :: NameOf(a)[i] != ':'
  {}

  lemma NamesDiffer(a: Action, b: Action)
    ensures NameOf(a) == NameOf(b) ==> a == b
  {
    assert "login"[0] != "reset"[0];
  }

  lemma FirstColon(key: string, name: string)
    requires name + ":" <= key && forall i | 0 <= i < |name| :: name[i] != ':'
    ensures |name| < |key| && key[|name|] == ':' && key[..|name|] == name
    ensures forall i | 0 <= i < |name| :: key[i] != ':'
  {
    forall i | 0 <= i < |name| ensures key[i] == name[i] {
      assert (name + ":")[i] == name[i];
    }
    assert (name + ":")[|name|] == ':';
  }

  /** A key belongs to one action, whatever client or account it names. */
  lemma OneActionPerKey(key: string, a: Action, b: Action)
    requires IsKeyOf(key, a) && IsKeyOf(key, b)
    ensures a == b
  {
    var x, y := NameOf(a), NameOf(b);
    NoColon(a);
    NoColon(b);
    FirstColon(key, x);
    FirstColon(key, y);
    assert |x| == |y|;
    assert x == key[..|x|] == y;
    NamesDiffer(a, b);
  }

  lemma KeysOfRequest(r: Request)
    ensures IsKeyOf(IpKey(r), r.action) && IsKeyOf(AccountKey(r), r.action) && IpKey(r) != "" && AccountKey(r) != ""
  {
    assert IpKey(r) == NameOf(r.action) + ":" + ("ip:" + r.ip);
    assert AccountKey(r) == NameOf(r.action) + ":" + ("account:" + r.account);
  }

  lemma SameSuffix(a: string, b: string, c: string)
    requires a + b == a + c
    ensures b == c
  {
    assert (a + b)[|a|..] == b && (a + c)[|a|..] == c;
  }

  /** Two requests try the same client bucket iff they agree on action and address, and the same account bucket iff they
      agree on action and account; and no client bucket is an account bucket. */
  lemma KeysAreInjective(r: Request, r': Request)
    ensures IpKey(r) == IpKey(r') <==> r.action == r'.action && r.ip == r'.ip
    ensures AccountKey(r) == AccountKey(r') <==> r.action == r'.action && r.account == r'.account
    ensures IpKey(r) != AccountKey(r')
  {
    KeysOfRequest(r);
    KeysOfRequest(r');
    assert IpKey(r)[|NameOf(r.action)| + 1] == 'i' && AccountKey(r')[|NameOf(r'.action)| + 1] == 'a';
    if IpKey(r) == IpKey(r') {
      OneActionPerKey(IpKey(r), r.action, r'.action);
      SameSuffix(NameOf(r.action) + ":ip:", r.ip, r'.ip);
    }
    if AccountKey(r) == AccountKey(r') {
      OneActionPerKey(AccountKey(r), r.action, r'.action);
      SameSuffix(NameOf(r.action) + ":account:", r.account, r'.account);
    }
    if IpKey(r) == AccountKey(r') {
      OneActionPerKey(IpKey(r), r.action, r'.action);
    }
  }

  lemma {:induction false} LegalConcat(m: Buckets, a: seq<LimiterEvent>, b: seq<LimiterEvent>, clock: int, end: int,
                                       key: string, policy: RatePolicy)
    requires LegalRun(m, a, clock, key, policy) && LegalRun(AfterAll(m, a), b, end, key, policy)
    requires clock <= end && forall e | e in a :: e.at <= end
    ensures LegalRun(m, a + b, clock, key, policy)
    decreases a
  {
    if a == [] {
      assert a + b == b;
    } else {
      assert (a + b)[1..] == a[1..] + b && a[0] in a;
      LegalConcat(After(m, a[0]), a[1..], b, a[0].at, end, key, policy);
    }
  }

  lemma LegalEvents(m: Buckets, r: Request, clock: int, key: string, a: Action)
    requires LegalRequest(m, r, clock) && IsKeyOf(key, a)
    ensures LegalRun(m, EventsOf(m, r), clock, key, PolicyOf(a))
    ensures clock <= EndOf(m, r) && forall e | e in EventsOf(m, r) :: e.at <= EndOf(m, r)
  {
    KeysOfRequest(r);
    if r.action != a {
      if key == IpKey(r) || key == AccountKey(r) {
        OneActionPerKey(key, a, r.action);
      }
    }
    var es := EventsOf(m, r);
    var swept := After(m, SweepOf(r));
    var first := After(swept, FirstTry(r));
    assert es[1..][0] == FirstTry(r);
    if GoesOn(m, r) {
      assert es[1..][1..] == [SecondTry(r)] && [SecondTry(r)][1..] == [];
      assert LegalRun(first, [SecondTry(r)], r.at, key, PolicyOf(a));
    } else {
      assert es[1..][1..] == [];
    }
    assert LegalRun(swept, es[1..], r.sweptAt, key, PolicyOf(a));
  }

  /** Every run of requests is a run of the limiter that keeps the policy of each key. */
  lemma {:induction false} RequestsAreLegal(m: Buckets, rs: seq<Request>, clock: int, key: string, a: Action)
    requires LegalRequests(m, rs, clock) && IsKeyOf(key, a)
    ensures LegalRun(m, Expand(m, rs), clock, key, PolicyOf(a))
    decreases rs
  {
    if rs != [] {
      var es := EventsOf(m, rs[0]);
      LegalEvents(m, rs[0], clock, key, a);
      RequestsAreLegal(AfterAll(m, es), rs[1..], EndOf(m, rs[0]), key, a);
      LegalConcat(m, es, Expand(AfterAll(m, es), rs[1..]), clock, EndOf(m, rs[0]), key, PolicyOf(a));
    }
  }

  /** Every sweep is as long as some request's action demands. */
  lemma {:induction false} SweepsOfRequests(m: Buckets, rs: seq<Request>, window: int)
    requires forall r | r in rs :: 2 * PolicyOf(r.action).window >= window
    ensures SweptFor(Expand(m, rs), window)
    decreases rs
  {
    if rs != [] {
      var es := EventsOf(m, rs[0]);
      SweepsOfRequests(AfterAll(m, es), rs[1..], window);
      assert rs[0] in rs;
    }
  }

  /** A short action's request sweeps buckets of an hourly one. */
  predicate Exposed(actions: set<Action>, counted: Action) {
    IsHourly(counted) && exists a | a in actions :: !IsHourly(a)
  }

  /** A run of requests from an empty limiter, of the given actions and without eviction of the key. */
  ghost predicate RunsOn(rs: seq<Request>, actions: set<Action>, key: string) {
    && LegalRequests(map[], rs, 0) && (forall r | r in rs :: r.action in actions)
    && NeverEvicts(map[], Expand(map[], rs), key)
  }

  lemma UnexposedIsFair(rs: seq<Request>, actions: set<Action>, counted: Action, key: string)
    requires RunsOn(rs, actions, key) && IsKeyOf(key, counted) && !Exposed(actions, counted)
    ensures FairRun(map[], Expand(map[], rs), 0, key, PolicyOf(counted))
  {
    var policy := PolicyOf(counted);
    RequestsAreLegal(map[], rs, 0, key, counted);
    SweepsOfRequests(map[], rs, policy.window);
    LongSweepsAreFair(map[], Expand(map[], rs), 0, key, policy);
  }

  /** In every run of requests of the given actions, the attempts under each key of `counted` are answered as a replay
      of them would be. */
  ghost predicate AnswersFaithfully(actions: set<Action>, counted: Action) {
    forall rs: seq<Request>, key: string | RunsOn(rs, actions, key) && IsKeyOf(key, counted) ::
      Answers(map[], Expand(map[], rs), key) == Replayed(History(Expand(map[], rs), key), PolicyOf(counted), 0)
  }

  // ---------------------------------------------------------------- the run that fails

  lemma {:induction false} AnswersConcat(m: Buckets, a: seq<LimiterEvent>, b: seq<LimiterEvent>, key: string)
    ensures Answers(m, a + b, key) == Answers(m, a, key) + Answers(AfterAll(m, a), b, key)
    decreases a
  {
    if a == [] {
      assert a + b == b;
    } else {
      assert (a + b)[1..] == a[1..] + b && (a + b)[0] == a[0];
      AnswersConcat(After(m, a[0]), a[1..], b, key);
    }
  }

  lemma {:induction false} HistoryConcat(a: seq<LimiterEvent>, b: seq<LimiterEvent>, key: string)
    ensures History(a + b, key) == History(a, key) + History(b, key)
  {
    if a == [] {
      assert a + b == b;
    } else {
      assert (a + b)[1..] == a[1..] + b && (a + b)[0] == a[0];
      HistoryConcat(a[1..], b, key);
    }
  }

  lemma {:induction false} EvictionsConcat(m: Buckets, a: seq<LimiterEvent>, b: seq<LimiterEvent>, key: string)
    ensures NeverEvicts(m, a + b, key) <==> NeverEvicts(m, a, key) && NeverEvicts(AfterAll(m, a), b, key)
    decreases a
  {
    if a == [] {
      assert a + b == b;
    } else {
      assert (a + b)[1..] == a[1..] + b && (a + b)[0] == a[0];
      EvictionsConcat(After(m, a[0]), a[1..], b, key);
    }
  }

  /** What a run of two parts shows under a key. */
  lemma Concat(m: Buckets, a: seq<LimiterEvent>, b: seq<LimiterEvent>, key: string)
    ensures Answers(m, a + b, key) == Answers(m, a, key) + Answers(AfterAll(m, a), b, key)
    ensures History(a + b, key) == History(a, key) + History(b, key)
    ensures NeverEvicts(m, a + b, key) <==> NeverEvicts(m, a, key) && NeverEvicts(AfterAll(m, a), b, key)
  {
    AnswersConcat(m, a, b, key);
    HistoryConcat(a, b, key);
    EvictionsConcat(m, a, b, key);
  }

  function Used(key: string, n: nat): Buckets {
    if n == 0 then map[] else map[key := Bucket(n, 1, 1)]
  }

  function Ask(a: Action, ip: string, at: int): Request {
    Request(a, ip, "", at, at, at, "", "")
  }

  function LateTime(short: Action): int {
    2 * PolicyOf(short).window + 2
  }

  /** n requests of the counted action at time 1, one of the short action from elsewhere once its sweep reaches them,
      and one more of the counted action. */
  function EarlySweep(counted: Action, short: Action, n: nat): seq<Request> {
    if n == 0 then [Ask(short, "elsewhere", LateTime(short)), Ask(counted, "client", LateTime(short))]
    else [Ask(counted, "client", 1)] + EarlySweep(counted, short, n - 1)
  }

  function Trues(n: nat): seq<bool> {
    if n == 0 then [] else [true] + Trues(n - 1)
  }

  function OnesThen(n: nat, late: int): seq<int> {
    if n == 0 then [late] else [1] + OnesThen(n - 1, late)
  }

  lemma {:induction false} ShapeOfTimes(n: nat, late: int)
    ensures |OnesThen(n, late)| == n + 1 == |Trues(n + 1)|
    ensures OnesThen(n, late)[n] == late && forall i | 0 <= i < n :: OnesThen(n, late)[i] == 1
    ensures Trues(n + 1)[n]
  {
    if n > 0 {
      ShapeOfTimes(n - 1, late);
    }
  }

  /** A request without an account, on buckets that its sweep turns into `swept`. */
  lemma AskAlone(m: Buckets, r: Request, swept: Buckets, key: string)
    requires r.account == "" && After(m, SweepOf(r)) == swept && |swept| < MAX_BUCKETS
    ensures var answer := Attempt(swept, IpKey(r), PolicyOf(r.action), r.at, r.victim);
            && EventsOf(m, r) == [SweepOf(r), FirstTry(r)] && AfterAll(m, EventsOf(m, r)) == answer.0
            && Answers(m, EventsOf(m, r), key) == (if IpKey(r) == key then [answer.1.allowed] else [])
            && History(EventsOf(m, r), key) == (if IpKey(r) == key then [r.at] else [])
            && NeverEvicts(m, EventsOf(m, r), key) && EndOf(m, r) == r.at
            && (forall clock | clock <= r.sweptAt <= r.at && 0 < r.sweptAt :: LegalRequest(m, r, clock))
  {
    var es := [SweepOf(r), FirstTry(r)];
    var first := After(swept, FirstTry(r));
    assert es[1..] == [FirstTry(r)] && [FirstTry(r)][1..] == [];
    assert AfterAll(swept, [FirstTry(r)]) == first;
    assert Answers(first, [], key) == [] && History([], key) == [] && NeverEvicts(first, [], key);
    assert Answers(swept, [FirstTry(r)], key) == if IpKey(r) == key then
        [Attempt(swept, IpKey(r), PolicyOf(r.action), r.at, r.victim).1.allowed] + [] else [];
  }

  lemma TryOnce(a: Action, used: nat)
    requires used < PolicyOf(a).limit
    ensures var key := IpKey(Ask(a, "client", 1));
            && After(Used(key, used), SweepOf(Ask(a, "client", 1))) == Used(key, used)
            && |Used(key, used)| <= 1
            && Attempt(Used(key, used), key, PolicyOf(a), 1, "") == (Used(key, used + 1), Answer(true, 0))
  {
    var key := IpKey(Ask(a, "client", 1));
    assert Attempt(Used(key, used), key, PolicyOf(a), 1, "").0 == Used(key, used + 1);
  }

  /** A run that starts with a request without an account. */
  lemma AskFirst(m: Buckets, r: Request, swept: Buckets, rs: seq<Request>, clock: int, key: string)
    requires r.account == "" && After(m, SweepOf(r)) == swept && |swept| < MAX_BUCKETS
    requires clock <= r.sweptAt <= r.at && 0 < r.sweptAt
    requires LegalRequests(Attempt(swept, IpKey(r), PolicyOf(r.action), r.at, r.victim).0, rs, r.at)
    ensures var (m', answer) := Attempt(swept, IpKey(r), PolicyOf(r.action), r.at, r.victim);
            && LegalRequests(m, [r] + rs, clock)
            && Answers(m, Expand(m, [r] + rs), key) ==
                 (if IpKey(r) == key then [answer.allowed] else []) + Answers(m', Expand(m', rs), key)
            && History(Expand(m, [r] + rs), key) ==
                 (if IpKey(r) == key then [r.at] else []) + History(Expand(m', rs), key)
            && (NeverEvicts(m, Expand(m, [r] + rs), key) <==> NeverEvicts(m', Expand(m', rs), key))
  {
    var m' := Attempt(swept, IpKey(r), PolicyOf(r.action), r.at, r.victim).0;
    AskAlone(m, r, swept, key);
    Concat(m, EventsOf(m, r), Expand(m', rs), key);
    assert ([r] + rs)[0] == r && ([r] + rs)[1..] == rs;
    assert LegalRequest(m, r, clock);
  }

  lemma NoRequests(m: Buckets, clock: int, key: string)
    ensures LegalRequests(m, [], clock) && NeverEvicts(m, Expand(m, []), key)
    ensures Answers(m, Expand(m, []), key) == [] && History(Expand(m, []), key) == []
  {}

  /** What the run of EarlySweep shows from the moment `used` attempts have been made. */
  ghost predicate ShowsEarly(counted: Action, short: Action, m: Buckets, n: nat, clock: int) {
    var key, rs := IpKey(Ask(counted, "client", 1)), EarlySweep(counted, short, n);
    && LegalRequests(m, rs, clock) && NeverEvicts(m, Expand(m, rs), key)
    && Answers(m, Expand(m, rs), key) == Trues(n + 1)
    && History(Expand(m, rs), key) == OnesThen(n, LateTime(short))
  }

  lemma {:induction false} EarlyRun(counted: Action, short: Action, m: Buckets, used: nat, n: nat, clock: int)
    requires IsHourly(counted) && !IsHourly(short) && used + n == PolicyOf(counted).limit && clock <= 1
    requires m == Used(IpKey(Ask(counted, "client", 1)), used)
    ensures ShowsEarly(counted, short, m, n, clock)
    decreases n
  {
    if n == 0 {
      LateRun(counted, short, m, clock);
    } else {
      var m' := Used(IpKey(Ask(counted, "client", 1)), used + 1);
      EarlyRun(counted, short, m', used + 1, n - 1, 1);
      TryOnce(counted, used);
      EarlyStep(counted, short, m, m', n - 1, clock);
    }
  }

  lemma EarlyStep(counted: Action, short: Action, m: Buckets, m': Buckets, n: nat, clock: int)
    requires clock <= 1 && ShowsEarly(counted, short, m', n, 1) && |m| <= 1
    requires var r := Ask(counted, "client", 1);
             && After(m, SweepOf(r)) == m
             && Attempt(m, IpKey(r), PolicyOf(counted), 1, "") == (m', Answer(true, 0))
    ensures ShowsEarly(counted, short, m, n + 1, clock)
  {
    var r, rest := Ask(counted, "client", 1), EarlySweep(counted, short, n);
    AskFirst(m, r, m, rest, clock, IpKey(r));
    assert EarlySweep(counted, short, n + 1) == [r] + rest;
    assert Trues(n + 2) == [true] + Trues(n + 1);
    assert OnesThen(n + 1, LateTime(short)) == [1] + OnesThen(n, LateTime(short));
  }

  lemma LateRun(counted: Action, short: Action, m: Buckets, clock: int)
    requires IsHourly(counted) && !IsHourly(short) && clock <= 1
    requires m == Used(IpKey(Ask(counted, "client", 1)), PolicyOf(counted).limit)
    ensures ShowsEarly(counted, short, m, 0, clock)
  {
    var key, late := IpKey(Ask(counted, "client", 1)), LateTime(short);
    var a, b := Ask(short, "elsewhere", late), Ask(counted, "client", late);
    KeysOfRequest(a);
    KeysOfRequest(b);
    if IpKey(a) == key {
      OneActionPerKey(key, short, counted);
    }
    var m1 := map[IpKey(a) := Bucket(1, late, late)];
    LateTry(short, m1, b);
    var m2 := Attempt(m1, IpKey(b), PolicyOf(counted), late, "").0;
    NoRequests(m2, late, key);
    AskFirst(m1, b, m1, [], late, key);
    assert [b] + [] == [b] && EarlySweep(counted, short, 0) == [a] + [b];
    SweptAway(key, PolicyOf(counted).limit, short);
    AskFirst(m, a, map[], [b], clock, key);
    assert Trues(1) == [true] + [] + [];
  }

  /** A fresh bucket survives the sweep of the same moment, and another key finds no bucket. */
  lemma LateTry(short: Action, m: Buckets, b: Request)
    requires m == map[IpKey(Ask(short, "elsewhere", LateTime(short))) := Bucket(1, LateTime(short), LateTime(short))]
    requires b.sweptAt == b.at == LateTime(short) && b.victim == "" && IpKey(b) !in m
    ensures After(m, SweepOf(b)) == m && |m| == 1
    ensures Attempt(m, IpKey(b), PolicyOf(b.action), b.at, "").1.allowed
  {}

  /** The short action's sweep takes the bucket, and its own attempt is the only one left. */
  lemma SweptAway(key: string, limit: nat, short: Action)
    requires !IsHourly(short) && limit > 0
    ensures var a := Ask(short, "elsewhere", LateTime(short));
            && After(Used(key, limit), SweepOf(a)) == map[]
            && Attempt(map[], IpKey(a), PolicyOf(short), a.at, "")
               == (map[IpKey(a) := Bucket(1, a.at, a.at)], Answer(true, 0))
  {
    var a := Ask(short, "elsewhere", LateTime(short));
    assert After(Used(key, limit), SweepOf(a)) == map[];
    assert map[][IpKey(a) := Bucket(1, a.at, a.at)] == map[IpKey(a) := Bucket(1, a.at, a.at)];
  }

  /** A run of requests of two actions whose last answer is not that of the replay. */
  ghost predicate FailsReplay(rs: seq<Request>, counted: Action, short: Action, policy: RatePolicy) {
    var key := IpKey(Ask(counted, "client", 1));
    var answers, h := Answers(map[], Expand(map[], rs), key), History(Expand(map[], rs), key);
    && policy.limit >= 0 && RunsOn(rs, {counted, short}, key) && answers == Trues(policy.limit + 1)
    && |Replayed(h, policy, 0)| == policy.limit + 1 && !Replayed(h, policy, 0)[policy.limit]
  }

  /** The failing run of requests: after `limit` requests of an hourly action, one of a short action sweeps their bucket
      while its window is open, and one more hourly request is let through that the replay refuses. */
  lemma EarlySweepRun(counted: Action, short: Action)
    requires IsHourly(counted) && !IsHourly(short)
    ensures FailsReplay(EarlySweep(counted, short, PolicyOf(counted).limit), counted, short, PolicyOf(counted))
  {
    EarlyRun(counted, short, Used(IpKey(Ask(counted, "client", 1)), 0), 0, PolicyOf(counted).limit, 0);
    EarlyRunFails(counted, short, PolicyOf(counted));
  }

  lemma EarlyRunFails(counted: Action, short: Action, policy: RatePolicy)
    requires Enabled(policy) && 1 <= LateTime(short) < 1 + policy.window
    requires ShowsEarly(counted, short, Used(IpKey(Ask(counted, "client", 1)), 0), policy.limit, 0)
    ensures FailsReplay(EarlySweep(counted, short, policy.limit), counted, short, policy)
  {
    ActionsOfRun(counted, short, policy.limit);
    ReplayRefuses(policy, OnesThen(policy.limit, LateTime(short)), LateTime(short));
  }

  lemma ReplayRefuses(policy: RatePolicy, h: seq<int>, late: int)
    requires Enabled(policy) && h == OnesThen(policy.limit, late) && 1 <= late < 1 + policy.window
    ensures |Replayed(h, policy, 0)| == policy.limit + 1 && !Replayed(h, policy, 0)[policy.limit]
  {
    ShapeOfTimes(policy.limit, late);
    OneAnchor(policy, h, policy.limit);
    ReplayedAt(h, policy, 0, policy.limit);
  }

  lemma {:induction false} ActionsOfRun(counted: Action, short: Action, n: nat)
    ensures forall r | r in EarlySweep(counted, short, n) :: r.action in {counted, short}
  {
    if n > 0 {
      ActionsOfRun(counted, short, n - 1);
    }
  }

  // ---------------------------------------------------------------- exactly when the answers are faithful

  /** An action whose requests never come has no history under its keys. */
  lemma {:induction false} NoHistory(m: Buckets, rs: seq<Request>, key: string, a: Action)
    requires IsKeyOf(key, a) && forall r | r in rs :: r.action != a
    ensures History(Expand(m, rs), key) == [] && Answers(m, Expand(m, rs), key) == []
    decreases rs
  {
    if rs != [] {
      var r, es := rs[0], EventsOf(m, rs[0]);
      assert r in rs;
      NoHistory(AfterAll(m, es), rs[1..], key, a);
      Concat(m, es, Expand(AfterAll(m, es), rs[1..]), key);
      TriesOwnAction(m, r, key, a);
    }
  }

  /** A request tries no key of another action. */
  lemma TriesOwnAction(m: Buckets, r: Request, key: string, a: Action)
    requires IsKeyOf(key, a) && r.action != a
    ensures History(EventsOf(m, r), key) == [] && Answers(m, EventsOf(m, r), key) == []
  {
    KeysOfRequest(r);
    if key == IpKey(r) || key == AccountKey(r) {
      OneActionPerKey(key, a, r.action);
    }
    NoOwnEvents(m, EventsOf(m, r), key);
  }

  lemma {:induction false} NoOwnEvents(m: Buckets, es: seq<LimiterEvent>, key: string)
    requires forall e | e in es :: e.Tried? ==> e.key != key
    ensures History(es, key) == [] && Answers(m, es, key) == []
    decreases es
  {
    if es != [] {
      assert es[0] in es;
      NoOwnEvents(After(m, es[0]), es[1..], key);
    }
  }

  /** For every set of actions and every action: the limiter answers its keys as their histories demand, in all runs of
      requests of those actions, except if it is an hourly action among them and a short one is too. */
  lemma FaithfulUnlessHourly(actions: set<Action>, counted: Action)
    ensures AnswersFaithfully(actions, counted) <==> !(counted in actions && Exposed(actions, counted))
  {
    var policy := PolicyOf(counted);
    if counted in actions && Exposed(actions, counted) {
      var short :| short in actions && !IsHourly(short);
      EarlySweepRun(counted, short);
      ShapeOfTimes(policy.limit, LateTime(short));
      var key, rs := IpKey(Ask(counted, "client", 1)), EarlySweep(counted, short, policy.limit);
      KeysOfRequest(Ask(counted, "client", 1));
      ActionsOfRun(counted, short, policy.limit);
      assert RunsOn(rs, actions, key) && Answers(map[], Expand(map[], rs), key)[policy.limit];
    } else {
      forall rs: seq<Request>, key: string | RunsOn(rs, actions, key) && IsKeyOf(key, counted)
        ensures Answers(map[], Expand(map[], rs), key) == Replayed(History(Expand(map[], rs), key), policy, 0)
      {
        if counted in actions {
          UnexposedIsFair(rs, actions, counted, key);
          LimiterRefinesReplay(Expand(map[], rs), key, policy);
        } else {
          NoHistory(map[], rs, key, counted);
        }
      }
    }
  }

  /** The bounds on what gets through, over requests of mixed actions: under each key of an action that is not exposed,
      at most `limit` attempts per anchored window and twice as many in any interval as long as the window. */
  lemma RequestBound(rs: seq<Request>, actions: set<Action>, counted: Action, key: string, t: int, a: nat)
    requires RunsOn(rs, actions, key) && IsKeyOf(key, counted) && !Exposed(actions, counted)
    ensures |LetThrough(Expand(map[], rs), key, PolicyOf(counted), t)| <= 2 * PolicyOf(counted).limit
    ensures |LetThroughWindow(Expand(map[], rs), key, PolicyOf(counted), a)| <= PolicyOf(counted).limit
  {
    UnexposedIsFair(rs, actions, counted, key);
    LimiterBound(Expand(map[], rs), key, PolicyOf(counted), t, a);
  }

  /** The policies in numbers, for a key of an action that is not exposed: how many requests get through in the
      window that the first of them opens, and how many minutes it lasts. */
  lemma FirstWindowInMinutes(rs: seq<Request>, actions: set<Action>, counted: Action, key: string)
    requires RunsOn(rs, actions, key) && IsKeyOf(key, counted) && !Exposed(actions, counted)
    ensures var answers, h := Answers(map[], Expand(map[], rs), key), History(Expand(map[], rs), key);
            && |answers| == |h|
            && (counted.Login? || counted.AuthTest? ==> FirstWindow(answers, h, 10, 10 * 60_000_000_000))
            && (counted.Pair? || counted.DeviceRegister? ==> FirstWindow(answers, h, 5, 15 * 60_000_000_000))
            && (counted.Register? || counted.Forgot? ==> FirstWindow(answers, h, 5, 60 * 60_000_000_000))
            && (counted.Reset? || counted.AdminReset? ==> FirstWindow(answers, h, 8, 60 * 60_000_000_000))
  {
    UnexposedIsFair(rs, actions, counted, key);
    LimiterOpensAWindow(Expand(map[], rs), key, PolicyOf(counted));
  }

  // ---------------------------------------------------------------- clients do not limit each other

  /** The clock readings of a run, in order; one that a request does not come to counts as taken all the same. */
  predicate InOrder(rs: seq<Request>, clock: int)
    decreases rs
  {
    rs != [] ==>
      clock <= rs[0].sweptAt <= rs[0].at <= rs[0].again && 0 < rs[0].sweptAt && InOrder(rs[1..], rs[0].again)
  }

  /** No attempt of a request has to evict a bucket. */
  predicate HasRoom(m: Buckets, r: Request) {
    var swept := After(m, SweepOf(r));
    && !NeedsRoom(swept, IpKey(r))
    && (GoesOn(m, r) ==> !NeedsRoom(After(swept, FirstTry(r)), AccountKey(r)))
  }

  predicate AllHaveRoom(m: Buckets, rs: seq<Request>)
    decreases rs
  {
    rs != [] ==> HasRoom(m, rs[0]) && AllHaveRoom(AfterAll(m, EventsOf(m, rs[0])), rs[1..])
  }

  /** The requests of some clients. */
  function OfClients(rs: seq<Request>, ips: set<string>): seq<Request> {
    if rs == [] then []
    else if rs[0].ip in ips then [rs[0]] + OfClients(rs[1..], ips)
    else OfClients(rs[1..], ips)
  }

  /** Which of their requests of one action get through. */
  function Outcomes(m: Buckets, rs: seq<Request>, ips: set<string>, counted: Action): seq<bool>
    decreases rs
  {
    if rs == [] then []
    else
      var rest := Outcomes(AfterAll(m, EventsOf(m, rs[0])), rs[1..], ips, counted);
      if rs[0].ip in ips && rs[0].action == counted then [LetsIn(m, rs[0])] + rest else rest
  }

  /** The buckets of a key in two runs stand for one history. */
  ghost predicate SameHistory(m: Buckets, m': Buckets, key: string, policy: RatePolicy, clock: int)
    requires Enabled(policy)
  {
    exists h :: StandsFor(m, key, h, policy, clock) && StandsFor(m', key, h, policy, clock)
  }

  ghost predicate SameHistories(m: Buckets, m': Buckets, keys: set<string>, policy: RatePolicy, clock: int)
    requires Enabled(policy)
  {
    forall key | key in keys :: SameHistory(m, m', key, policy, clock)
  }

  lemma LaterHistory(m: Buckets, key: string, h: seq<int>, policy: RatePolicy, clock: int, later: int)
    requires Enabled(policy) && StandsFor(m, key, h, policy, clock) && clock <= later
    ensures StandsFor(m, key, h, policy, later)
  {}

  /** One run meets an event under no key of interest, the other nothing. */
  lemma OtherStep(m: Buckets, m': Buckets, keys: set<string>, policy: RatePolicy, clock: int, e: LimiterEvent)
    requires Enabled(policy) && SameHistories(m, m', keys, policy, clock) && clock <= e.at && 0 < e.at
    requires if e.Tried? then e.key != "" && e.key !in keys && !NeedsRoom(m, e.key) else e.maxAge >= policy.window
    ensures SameHistories(After(m, e), m', keys, policy, e.at)
  {
    forall key | key in keys ensures SameHistory(After(m, e), m', key, policy, e.at) {
      var h :| StandsFor(m, key, h, policy, clock) && StandsFor(m', key, h, policy, clock);
      OtherEvent(m, key, h, policy, clock, e);
      LaterHistory(m', key, h, policy, clock, e.at);
    }
  }

  lemma Swap(m: Buckets, m': Buckets, keys: set<string>, policy: RatePolicy, clock: int)
    requires Enabled(policy) && SameHistories(m, m', keys, policy, clock)
    ensures SameHistories(m', m, keys, policy, clock)
  {
    forall key | key in keys ensures SameHistory(m', m, key, policy, clock) {
      var h :| StandsFor(m, key, h, policy, clock) && StandsFor(m', key, h, policy, clock);
    }
  }

  /** Both runs sweep. */
  lemma BothSweep(m: Buckets, m': Buckets, keys: set<string>, policy: RatePolicy, clock: int, e: LimiterEvent)
    requires Enabled(policy) && SameHistories(m, m', keys, policy, clock) && clock <= e.at && 0 < e.at
    requires e.Sweep? && e.maxAge >= policy.window
    ensures SameHistories(After(m, e), After(m', e), keys, policy, e.at)
  {
    OtherStep(m, m', keys, policy, clock, e);
    Swap(After(m, e), m', keys, policy, e.at);
    OtherStep(m', After(m, e), keys, policy, e.at, e);
    Swap(After(m', e), After(m, e), keys, policy, e.at);
  }

  /** Both runs try a key of interest: they answer alike. */
  lemma BothTry(m: Buckets, m': Buckets, keys: set<string>, policy: RatePolicy, clock: int, e: LimiterEvent)
    requires Enabled(policy) && SameHistories(m, m', keys, policy, clock) && clock <= e.at && 0 < e.at
    requires e.Tried? && e.policy == policy && e.key in keys && e.key != ""
    requires !NeedsRoom(m, e.key) && !NeedsRoom(m', e.key)
    ensures SameHistories(After(m, e), After(m', e), keys, policy, e.at)
    ensures Attempt(m, e.key, policy, e.at, e.victim).1.allowed <==>
            Attempt(m', e.key, policy, e.at, e.victim).1.allowed
  {
    forall key | key in keys
      ensures SameHistory(After(m, e), After(m', e), key, policy, e.at)
      ensures key == e.key ==>
                (Attempt(m, e.key, policy, e.at, e.victim).1.allowed <==>
                   Attempt(m', e.key, policy, e.at, e.victim).1.allowed)
    {
      var h :| StandsFor(m, key, h, policy, clock) && StandsFor(m', key, h, policy, clock);
      if key == e.key {
        OwnAttempt(m, key, h, policy, clock, e.at, e.victim);
        OwnAttempt(m', key, h, policy, clock, e.at, e.victim);
      } else {
        OtherEvent(m, key, h, policy, clock, e);
        OtherEvent(m', key, h, policy, clock, e);
      }
    }
  }

  ghost predicate Avoids(r: Request, keys: set<string>) {
    IpKey(r) !in keys && (r.account != "" ==> AccountKey(r) !in keys)
  }

  ghost predicate TriesOnly(r: Request, keys: set<string>) {
    IpKey(r) in keys && (r.account != "" ==> AccountKey(r) in keys)
  }

  /** A request under none of the keys, in one of the runs. */
  lemma OtherRequest(m: Buckets, m': Buckets, keys: set<string>, policy: RatePolicy, clock: int, r: Request)
    requires Enabled(policy) && SameHistories(m, m', keys, policy, clock)
    requires clock <= r.sweptAt <= r.at <= r.again && 0 < r.sweptAt && HasRoom(m, r)
    requires Avoids(r, keys) && 2 * PolicyOf(r.action).window >= policy.window
    ensures SameHistories(AfterAll(m, EventsOf(m, r)), m', keys, policy, r.again)
  {
    KeysOfRequest(r);
    var swept := After(m, SweepOf(r));
    var first := After(swept, FirstTry(r));
    OtherStep(m, m', keys, policy, clock, SweepOf(r));
    OtherStep(swept, m', keys, policy, r.sweptAt, FirstTry(r));
    if GoesOn(m, r) {
      OtherStep(first, m', keys, policy, r.at, SecondTry(r));
      AfterThree(m, SweepOf(r), FirstTry(r), SecondTry(r));
    } else {
      AfterTwo(m, SweepOf(r), FirstTry(r));
      LaterHistories(first, m', keys, policy, r.at, r.again);
    }
  }

  lemma LaterHistories(m: Buckets, m': Buckets, keys: set<string>, policy: RatePolicy, clock: int, later: int)
    requires Enabled(policy) && SameHistories(m, m', keys, policy, clock) && clock <= later
    ensures SameHistories(m, m', keys, policy, later)
  {
    forall key | key in keys ensures SameHistory(m, m', key, policy, later) {
      var h :| StandsFor(m, key, h, policy, clock) && StandsFor(m', key, h, policy, clock);
      LaterHistory(m, key, h, policy, clock, later);
      LaterHistory(m', key, h, policy, clock, later);
    }
  }

  /** And in both, where it may go on in one and not in the other. */
  lemma OtherRequests(m: Buckets, m': Buckets, keys: set<string>, policy: RatePolicy, clock: int, r: Request)
    requires Enabled(policy) && SameHistories(m, m', keys, policy, clock)
    requires clock <= r.sweptAt <= r.at <= r.again && 0 < r.sweptAt && HasRoom(m, r) && HasRoom(m', r)
    requires Avoids(r, keys) && 2 * PolicyOf(r.action).window >= policy.window
    ensures SameHistories(AfterAll(m, EventsOf(m, r)), AfterAll(m', EventsOf(m', r)), keys, policy, r.again)
  {
    KeysOfRequest(r);
    var swept, swept' := After(m, SweepOf(r)), After(m', SweepOf(r));
    var first, first' := After(swept, FirstTry(r)), After(swept', FirstTry(r));
    BothSweep(m, m', keys, policy, clock, SweepOf(r));
    OtherStep(swept, swept', keys, policy, r.sweptAt, FirstTry(r));
    Swap(first, swept', keys, policy, r.at);
    OtherStep(swept', first, keys, policy, r.at, FirstTry(r));
    LaterHistories(first', first, keys, policy, r.at, r.again);
    MaybeSecond(m', first', first, keys, policy, r);
    var n' := AfterAll(m', EventsOf(m', r));
    Swap(n', first, keys, policy, r.again);
    MaybeSecond(m, first, n', keys, policy, r);
  }

  /** The account's attempt, when the request comes to it. */
  lemma MaybeSecond(m: Buckets, first: Buckets, other: Buckets, keys: set<string>, policy: RatePolicy, r: Request)
    requires Enabled(policy) && SameHistories(first, other, keys, policy, r.again)
    requires first == After(After(m, SweepOf(r)), FirstTry(r)) && 0 < r.again && HasRoom(m, r) && Avoids(r, keys)
    ensures SameHistories(AfterAll(m, EventsOf(m, r)), other, keys, policy, r.again)
  {
    KeysOfRequest(r);
    if GoesOn(m, r) {
      OtherStep(first, other, keys, policy, r.again, SecondTry(r));
      AfterThree(m, SweepOf(r), FirstTry(r), SecondTry(r));
    } else {
      AfterTwo(m, SweepOf(r), FirstTry(r));
    }
  }

  /** A request under keys of interest, in both runs: it gets through in both or in neither. */
  lemma SameRequest(m: Buckets, m': Buckets, keys: set<string>, policy: RatePolicy, clock: int, r: Request)
    requires policy == PolicyOf(r.action) && SameHistories(m, m', keys, policy, clock)
    requires clock <= r.sweptAt <= r.at <= r.again && 0 < r.sweptAt && HasRoom(m, r) && HasRoom(m', r)
    requires TriesOnly(r, keys)
    ensures LetsIn(m, r) <==> LetsIn(m', r)
    ensures SameHistories(AfterAll(m, EventsOf(m, r)), AfterAll(m', EventsOf(m', r)), keys, policy, r.again)
  {
    KeysOfRequest(r);
    var swept, swept' := After(m, SweepOf(r)), After(m', SweepOf(r));
    var first, first' := After(swept, FirstTry(r)), After(swept', FirstTry(r));
    BothSweep(m, m', keys, policy, clock, SweepOf(r));
    BothTry(swept, swept', keys, policy, r.sweptAt, FirstTry(r));
    if GoesOn(m, r) {
      BothTry(first, first', keys, policy, r.at, SecondTry(r));
      AfterThree(m, SweepOf(r), FirstTry(r), SecondTry(r));
      AfterThree(m', SweepOf(r), FirstTry(r), SecondTry(r));
    } else {
      AfterTwo(m, SweepOf(r), FirstTry(r));
      AfterTwo(m', SweepOf(r), FirstTry(r));
      LaterHistories(first, first', keys, policy, r.at, r.again);
    }
  }

  /** The requests of a run, seen from the given clients and one of their actions: either theirs and under the keys, or
      under none of the keys. */
  ghost predicate Separated(rs: seq<Request>, ips: set<string>, counted: Action, keys: set<string>) {
    forall r | r in rs ::
      && 2 * PolicyOf(r.action).window >= PolicyOf(counted).window
      && if r.ip in ips && r.action == counted then TriesOnly(r, keys) else Avoids(r, keys)
  }

  lemma {:induction false} SameOutcomes(m: Buckets, m': Buckets, rs: seq<Request>, ips: set<string>, counted: Action,
                                        keys: set<string>, clock: int)
    requires SameHistories(m, m', keys, PolicyOf(counted), clock) && InOrder(rs, clock)
    requires AllHaveRoom(m, rs) && AllHaveRoom(m', OfClients(rs, ips)) && Separated(rs, ips, counted, keys)
    ensures Outcomes(m, rs, ips, counted) == Outcomes(m', OfClients(rs, ips), ips, counted)
    decreases rs
  {
    if rs != [] {
      var r, policy := rs[0], PolicyOf(counted);
      var n := AfterAll(m, EventsOf(m, r));
      assert r in rs;
      if r.ip !in ips {
        OtherRequest(m, m', keys, policy, clock, r);
        SameOutcomes(n, m', rs[1..], ips, counted, keys, r.again);
      } else {
        var n' := AfterAll(m', EventsOf(m', r));
        assert OfClients(rs, ips)[1..] == OfClients(rs[1..], ips);
        if r.action == counted {
          SameRequest(m, m', keys, policy, clock, r);
        } else {
          OtherRequests(m, m', keys, policy, clock, r);
        }
        SameOutcomes(n, n', rs[1..], ips, counted, keys, r.again);
      }
    }
  }

  /** No two clients of which only one is among the given ones name the same account for this action. */
  predicate ShareNoAccount(rs: seq<Request>, ips: set<string>, counted: Action) {
    forall r, r' | r in rs && r' in rs && r.action == r'.action == counted && r.ip in ips && r'.ip !in ips ::
      r.account == "" || r.account != r'.account
  }

  function ActionsOf(rs: seq<Request>): set<Action> {
    set r | r in rs :: r.action
  }

  /** The keys that the given clients try for an action. */
  function OwnKeys(rs: seq<Request>, ips: set<string>, counted: Action): set<string> {
    (set r | r in rs && r.ip in ips && r.action == counted :: IpKey(r))
    + (set r | r in rs && r.ip in ips && r.action == counted && r.account != "" :: AccountKey(r))
  }

  lemma OwnKeysSeparate(rs: seq<Request>, ips: set<string>, counted: Action)
    requires ShareNoAccount(rs, ips, counted) && !Exposed(ActionsOf(rs), counted)
    ensures Separated(rs, ips, counted, OwnKeys(rs, ips, counted))
  {
    var keys := OwnKeys(rs, ips, counted);
    forall r | r in rs
      ensures 2 * PolicyOf(r.action).window >= PolicyOf(counted).window
      ensures if r.ip in ips && r.action == counted then TriesOnly(r, keys) else Avoids(r, keys)
    {
      assert r.action in ActionsOf(rs);
      if !(r.ip in ips && r.action == counted) {
        forall own | own in rs && own.ip in ips && own.action == counted
          ensures IpKey(r) != IpKey(own) && IpKey(r) != AccountKey(own) && AccountKey(r) != IpKey(own)
          ensures own.account != "" ==> AccountKey(r) != AccountKey(own)
        {
          KeysAreInjective(r, own);
          KeysAreInjective(own, r);
        }
      }
    }
  }

  /** Clients do not limit each other: for an action that no request of the run exposes, leaving out all requests of
      other clients changes nothing about which requests of the given clients get through, as long as they share no
      account with those left out and no bucket has to be evicted. */
  lemma ClientsAreIndependent(rs: seq<Request>, ips: set<string>, counted: Action)
    requires InOrder(rs, 0) && AllHaveRoom(map[], rs) && AllHaveRoom(map[], OfClients(rs, ips))
    requires ShareNoAccount(rs, ips, counted) && !Exposed(ActionsOf(rs), counted)
    ensures Outcomes(map[], rs, ips, counted) == Outcomes(map[], OfClients(rs, ips), ips, counted)
  {
    var keys, policy := OwnKeys(rs, ips, counted), PolicyOf(counted);
    OwnKeysSeparate(rs, ips, counted);
    forall key | key in keys ensures SameHistory(map[], map[], key, policy, 0) {
      assert StandsFor(map[], key, [], policy, 0);
    }
    SameOutcomes(map[], map[], rs, ips, counted, keys, 0);
  }
}

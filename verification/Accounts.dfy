/**
 Sessions and e-mail tokens: their expiry, and why the retention job that deletes expired rows
 cannot be noticed by anyone whose session or reset token is still good.
 */
module Accounts {
  import opened Schema
  import opened Timestamps

  /** server_sessions, keyed by the hash of the session token */
  datatype SessionRow = SessionRow(csrf: TokenHash, scope: string, subject: string, expiresAt: Timestamp,
                                   lastSeen: Timestamp)

  /** server_users; `password` is the bcrypt hash. */
  datatype UserRow = UserRow(password: string, confirmed: bool, blocked: bool)

  datatype Accounts = Accounts(
    users: map<string, UserRow>, sessions: map<TokenHash, SessionRow>, tokens: map<TokenHash, TokenRow>,
    devices: seq<DeviceEntry>, pairings: seq<Pairing>, audit: seq<AuditRow>)

  const NO_ACCOUNTS := Accounts(map[], map[], map[], [], [], [])

  const SESSION_LIFETIME: nat := 24 * HOUR

  // ---------------------------------------------------------------- expiry

  /** The check of loadSession and resetPasswordWithToken: unreadable, or not before the expiry. */
  predicate Expired(expiresAt: Timestamp, now: Instant) {
    match Parse(expiresAt)
    case None => true
    case Some(t) => now >= t
  }

  /** The check of the e-mail confirmation, which still accepts the expiry instant itself. */
  predicate ConfirmExpired(expiresAt: Timestamp, now: Instant) {
    match Parse(expiresAt)
    case None => true
    case Some(t) => now > t
  }

  /** A timestamp the server has written. */
  ghost predicate Written(s: Timestamp) {
    exists t: Instant :: Formattable(t) && s == Format(t)
  }

  ghost predicate WrittenAccounts(a: Accounts) {
    && (forall h | h in a.sessions :: Written(a.sessions[h].expiresAt))
    && (forall h | h in a.tokens :: Written(a.tokens[h].expiresAt))
  }

  // ---------------------------------------------------------------- the operations

  function CreateSession(a: Accounts, token: string, csrf: string, scope: string, subject: string,
                         now: Instant): Option<Accounts>
  {
    if scope != "admin" && scope != "user" then None
    else if HashOf(token) in a.sessions then None
    else Some(a.(sessions := a.sessions[HashOf(token) :=
      SessionRow(HashOf(csrf), scope, subject, Format(now + SESSION_LIFETIME), Format(now))]))
  }

  /** loadSession. Its two writes are best effort: `wrote` says whether the one it makes succeeds. */
  function LoadSession(a: Accounts, token: string, scope: string, now: Instant, wrote: bool): (Accounts,
                       Option<SessionRow>)
  {
    var h := HashOf(token);
    if token == "" || h !in a.sessions || a.sessions[h].scope != scope then (a, None)
    else if Expired(a.sessions[h].expiresAt, now) then
      (if wrote then a.(sessions := a.sessions - {h}) else a, None)
    else
      (if wrote then a.(sessions := a.sessions[h := a.sessions[h].(lastSeen := Format(now))]) else a,
       Some(a.sessions[h]))
  }

  function IssueToken(a: Accounts, token: string, user: string, purpose: string, lifetime: nat,
                      now: Instant): Option<Accounts>
  {
    if HashOf(token) in a.tokens then None
    else Some(a.(tokens := a.tokens[HashOf(token) := TokenRow(user, purpose, Format(now + lifetime), Format(now))]))
  }

  datatype ResetResult = ResetDone(user: string) | ResetInvalid | ResetExpired

  function WithoutResets(tokens: map<TokenHash, TokenRow>, user: string): map<TokenHash, TokenRow> {
    map h | h in tokens && !(tokens[h].user == user && tokens[h].purpose == "reset") :: tokens[h]
  }

  /** resetPasswordWithToken, `password` being the new hash. */
  function ResetPassword(a: Accounts, token: string, password: string, now: Instant): (Accounts, ResetResult)
  {
    var h := HashOf(token);
    if h !in a.tokens || a.tokens[h].purpose != "reset" then (a, ResetInvalid)
    else if Expired(a.tokens[h].expiresAt, now) then (a, ResetExpired)
    else
      var user := a.tokens[h].user;
      if user !in a.users then (a, ResetInvalid)
      else (a.(tokens := WithoutResets(a.tokens - {h}, user),
               users := a.users[user := a.users[user].(password := password)]), ResetDone(user))
  }

  /** DELETE FROM server_sessions WHERE expires_at <= now, compared as text */
  function SweepSessions(a: Accounts, now: Instant): Accounts {
    a.(sessions := map h | h in a.sessions && !TextAtMost(a.sessions[h].expiresAt, Format(now)) :: a.sessions[h])
  }

  /** DELETE FROM server_email_tokens WHERE expires_at <= now */
  function SweepTokens(a: Accounts, now: Instant): Accounts {
    a.(tokens := map h | h in a.tokens && !TextAtMost(a.tokens[h].expiresAt, Format(now)) :: a.tokens[h])
  }

  /** DELETE FROM server_audit_log WHERE created_at < cutoff */
  function SweepAudit(a: Accounts, cutoff: Timestamp): Accounts {
    a.(audit := Keep(a.audit, (row: AuditRow) => !TextLess(row.createdAt, cutoff)))
  }

  /** Confirming an e-mail address; a user who is gone is not noticed. */
  function ConfirmEmail(a: Accounts, token: string, now: Instant): (Accounts, Option<string>) {
    var h := HashOf(token);
    if h !in a.tokens || a.tokens[h].purpose != "confirm" || ConfirmExpired(a.tokens[h].expiresAt, now) then (a, None)
    else
      var user := a.tokens[h].user;
      (a.(tokens := a.tokens - {h},
          users := if user in a.users then a.users[user := a.users[user].(confirmed := true)] else a.users),
       Some(user))
  }

  function SessionsWithout(sessions: map<TokenHash, SessionRow>, user: string): map<TokenHash, SessionRow> {
    map h | h in sessions && !(sessions[h].scope == "user" && sessions[h].subject == user) :: sessions[h]
  }

  /** Blocking a user ends the user's sessions; unblocking gives none back. */
  function SetBlocked(a: Accounts, user: string, blocked: bool): Accounts {
    a.(users := if user in a.users then a.users[user := a.users[user].(blocked := blocked)] else a.users,
       sessions := if blocked then SessionsWithout(a.sessions, user) else a.sessions)
  }

  function TokensWithout(tokens: map<TokenHash, TokenRow>, user: string): map<TokenHash, TokenRow> {
    map h | h in tokens && tokens[h].user != user :: tokens[h]
  }

  function DevicesWithout(devices: seq<DeviceEntry>, user: string): seq<DeviceEntry> {
    Keep(devices, (d: DeviceEntry) => d.row.user != Some(user))
  }

  function PairingsWithout(pairings: seq<Pairing>, user: string): seq<Pairing> {
    Keep(pairings, (p: Pairing) => p.user != user)
  }

  function AuditWithout(audit: seq<AuditRow>, user: string): seq<AuditRow> {
    Keep(audit, (row: AuditRow) => row.user != user)
  }

  /** The deletes of a user deletion on these tables. */
  function WithoutUser(a: Accounts, user: string): Accounts {
    Accounts(a.users - {user}, SessionsWithout(a.sessions, user), TokensWithout(a.tokens, user),
             DevicesWithout(a.devices, user), PairingsWithout(a.pairings, user), AuditWithout(a.audit, user))
  }

  /** A user deletion leaves no row of the user, and every row of everyone else. */
  lemma DeletionIsExact(a: Accounts, user: string, h: TokenHash, device: DeviceEntry, pairing: Pairing, row: AuditRow,
                        u: string)
    ensures var a' := WithoutUser(a, user);
            && (u in a'.users <==> u in a.users && u != user) && (u in a'.users ==> a'.users[u] == a.users[u])
            && (h in a'.sessions <==>
                  h in a.sessions && !(a.sessions[h].scope == "user" && a.sessions[h].subject == user))
            && (h in a'.sessions ==> a'.sessions[h] == a.sessions[h])
            && (h in a'.tokens <==> h in a.tokens && a.tokens[h].user != user)
            && (h in a'.tokens ==> a'.tokens[h] == a.tokens[h])
            && (device in a'.devices <==> device in a.devices && device.row.user != Some(user))
            && (pairing in a'.pairings <==> pairing in a.pairings && pairing.user != user)
            && (row in a'.audit <==> row in a.audit && row.user != user)
  {
    KeepMember(a.devices, (d: DeviceEntry) => d.row.user != Some(user), device);
    KeepMember(a.pairings, (p: Pairing) => p.user != user, pairing);
    KeepMember(a.audit, (r: AuditRow) => r.user != user, row);
  }

  /** A confirmation that is accepted uses up its token, confirms the token's user, and changes nothing else; one that
      is refused changes nothing. */
  lemma ConfirmationIsExact(a: Accounts, token: string, now: Instant, h: TokenHash, u: string)
    ensures var (a', user) := ConfirmEmail(a, token, now);
            && (user.None? ==> a' == a)
            && (user.Some? ==>
                  && HashOf(token) in a.tokens && a.tokens[HashOf(token)].user == user.value
                  && a.tokens[HashOf(token)].purpose == "confirm"
                  && (h in a'.tokens <==> h in a.tokens && h != HashOf(token))
                  && (h in a'.tokens ==> a'.tokens[h] == a.tokens[h])
                  && (u in a'.users <==> u in a.users)
                  && (u in a.users ==>
                        a'.users[u] == if u == user.value then a.users[u].(confirmed := true) else a.users[u]))
            && a' == a.(tokens := a'.tokens, users := a'.users)
  {}

  /** Blocking sets the flag of one user and ends that user's sessions; unblocking clears it. */
  lemma BlockingIsExact(a: Accounts, user: string, blocked: bool, h: TokenHash, u: string)
    ensures var a' := SetBlocked(a, user, blocked);
            && (u in a'.users <==> u in a.users)
            && (u in a.users ==> a'.users[u] == if u == user then a.users[u].(blocked := blocked) else a.users[u])
            && (h in a'.sessions <==>
                  h in a.sessions && !(blocked && a.sessions[h].scope == "user" && a.sessions[h].subject == user))
            && (h in a'.sessions ==> a'.sessions[h] == a.sessions[h])
            && a' == a.(users := a'.users, sessions := a'.sessions)
  {}

  /** A visit touches its own session only: it notes the time in one that is good and drops one that has expired. */
  lemma VisitIsExact(a: Accounts, token: string, scope: string, now: Instant, wrote: bool, h: TokenHash)
    ensures var (a', session) := LoadSession(a, token, scope, now, wrote);
            && (h != HashOf(token) ==> (h in a'.sessions <==> h in a.sessions))
            && (h != HashOf(token) && h in a.sessions ==> a'.sessions[h] == a.sessions[h])
            && (session.Some? ==>
                  && token != "" && HashOf(token) in a.sessions && session.value == a.sessions[HashOf(token)]
                  && session.value.scope == scope && HashOf(token) in a'.sessions
                  && a'.sessions[HashOf(token)] ==
                       if wrote then session.value.(lastSeen := Format(now)) else session.value)
            && (session.None? && wrote && token != "" && HashOf(token) in a.sessions ==>
                  (HashOf(token) in a'.sessions <==> a.sessions[HashOf(token)].scope != scope))
            && (!wrote ==> a' == a)
            && a' == a.(sessions := a'.sessions)
  {}

  // ---------------------------------------------------------------- what retention deletes

  /** The text comparison of the retention job agrees with the clock comparison of the checks. */
  lemma SweepMeansExpired(expiresAt: Timestamp, now: Instant)
    requires Written(expiresAt) && Formattable(now)
    ensures TextAtMost(expiresAt, Format(now)) <==> Expired(expiresAt, now)
  {
    var t: Instant :| Formattable(t) && expiresAt == Format(t);
    FormatOrder(t, now);
    ParseFormat(t);
    assert now >= t / SECOND * SECOND <==> t / SECOND <= now / SECOND;
  }

  lemma AuditSwept(a: Accounts, cutoff: Timestamp)
    ensures forall row | row in a.audit :: row in SweepAudit(a, cutoff).audit <==> !TextLess(row.createdAt, cutoff)
  {
    forall row {
      KeepMember(a.audit, (r: AuditRow) => !TextLess(r.createdAt, cutoff), row);
    }
  }

  /** Retention on the clock: of the rows that expire or were made at `t`, it keeps exactly the sessions and tokens, of
      whatever purpose, that expire in a later second than it compares with, and the audit rows that are not of an
      earlier second than its cutoff. */
  lemma SweepsAreExact(a: Accounts, t: Instant, now: Instant, h: TokenHash, row: AuditRow)
    requires Formattable(t) && Formattable(now)
    ensures h in a.sessions && a.sessions[h].expiresAt == Format(t) ==>
              (h in SweepSessions(a, now).sessions <==> t / SECOND > now / SECOND)
    ensures h in a.tokens && a.tokens[h].expiresAt == Format(t) ==>
              (h in SweepTokens(a, now).tokens <==> t / SECOND > now / SECOND)
    ensures row in a.audit && row.createdAt == Format(t) ==>
              (row in SweepAudit(a, Format(now)).audit <==> t / SECOND >= now / SECOND)
  {
    FormatOrder(t, now);
    KeepMember(a.audit, (r: AuditRow) => !TextLess(r.createdAt, Format(now)), row);
  }

  /** And it adds and changes nothing. */
  lemma SweepsOnlyDelete(a: Accounts, now: Instant, cutoff: Timestamp, h: TokenHash, row: AuditRow)
    ensures var a' := SweepSessions(a, now);
            a' == a.(sessions := a'.sessions)
            && (h in a'.sessions ==> h in a.sessions && a'.sessions[h] == a.sessions[h])
    ensures var a' := SweepTokens(a, now);
            a' == a.(tokens := a'.tokens) && (h in a'.tokens ==> h in a.tokens && a'.tokens[h] == a.tokens[h])
    ensures var a' := SweepAudit(a, cutoff);
            a' == a.(audit := a'.audit) && (row in a'.audit ==> row in a.audit)
  {
    KeepMember(a.audit, (r: AuditRow) => !TextLess(r.createdAt, cutoff), row);
  }

  /** At its comparison instant retention deletes exactly the sessions that are refused. */
  lemma {:induction false} SweptSessionsAreTheRefusedOnes(a: Accounts, h: TokenHash, now: Instant, wrote: bool)
    requires h in a.sessions && h.token != "" && Written(a.sessions[h].expiresAt) && Formattable(now)
    ensures h !in SweepSessions(a, now).sessions <==>
            LoadSession(a, h.token, a.sessions[h].scope, now, wrote).1 == None
  {
    SweepMeansExpired(a.sessions[h].expiresAt, now);
  }

  /** And exactly the reset tokens that are refused, among those of existing users. */
  lemma SweptResetsAreTheRefusedOnes(a: Accounts, h: TokenHash, password: string, now: Instant)
    requires h in a.tokens && Written(a.tokens[h].expiresAt) && Formattable(now)
    requires a.tokens[h].purpose == "reset" && a.tokens[h].user in a.users
    ensures h !in SweepTokens(a, now).tokens <==> !ResetPassword(a, h.token, password, now).1.ResetDone?
  {
    SweepMeansExpired(a.tokens[h].expiresAt, now);
  }

  /** The confirmation check differs from the other two at one instant only, so retention takes a
      confirmation token that is still accepted if and only if it runs at the very instant of its expiry. */
  lemma SweptConfirmationStillGood(t: Instant, now: Instant)
    requires Formattable(t) && Formattable(now)
    ensures TextAtMost(Format(t), Format(now)) && !ConfirmExpired(Format(t), now) <==> now == t / SECOND * SECOND
  {
    FormatOrder(t, now);
    ParseFormat(t);
    assert now >= t / SECOND * SECOND <==> t / SECOND <= now / SECOND;
  }

  // ---------------------------------------------------------------- retention over whole runs

  datatype Event =
    | Login(token: string, csrf: string, scope: string, subject: string, at: Instant)
    | Visit(token: string, scope: string, at: Instant, wrote: bool)
    | Issue(token: string, user: string, purpose: string, lifetime: nat, at: Instant)
    | Reset(token: string, password: string, at: Instant)
    | Confirm(token: string, at: Instant)
    | Block(user: string, blocked: bool, at: Instant)
    | Delete(user: string, at: Instant)
    | RetainSessions(at: Instant)
    | RetainTokens(at: Instant)

  /** What the caller learns: whether the step was accepted, and for whom. */
  datatype Answer = Granted(subject: string) | Denied

  function Perform(a: Accounts, e: Event): (Accounts, Answer) {
    match e
    case Login(token, csrf, scope, subject, at) =>
      (match CreateSession(a, token, csrf, scope, subject, at)
       case None => (a, Denied) case Some(a') => (a', Granted(subject)))
    case Visit(token, scope, at, wrote) =>
      var (a', session) := LoadSession(a, token, scope, at, wrote);
      (a', match session case None => Denied case Some(row) => Granted(row.subject))
    case Issue(token, user, purpose, lifetime, at) =>
      (match IssueToken(a, token, user, purpose, lifetime, at)
       case None => (a, Denied) case Some(a') => (a', Granted(user)))
    case Reset(token, password, at) =>
      var (a', result) := ResetPassword(a, token, password, at);
      (a', if result.ResetDone? then Granted(result.user) else Denied)
    case Confirm(token, at) =>
      var (a', user) := ConfirmEmail(a, token, at);
      (a', match user case None => Denied case Some(u) => Granted(u))
    case Block(user, blocked, at) =>
      if user in a.users then (SetBlocked(a, user, blocked), Granted(user)) else (a, Denied)
    case Delete(user, at) => (WithoutUser(a, user), Granted(user))
    case RetainSessions(at) => (SweepSessions(a, at), Denied)
    case RetainTokens(at) => (SweepTokens(a, at), Denied)
  }

  predicate IsRetention(e: Event) {
    e.RetainSessions? || e.RetainTokens?
  }

  function WithoutRetention(es: seq<Event>): seq<Event> {
    if es == [] then []
    else if IsRetention(es[0]) then WithoutRetention(es[1..])
    else [es[0]] + WithoutRetention(es[1..])
  }

  /** The answers to everything but retention. */
  function AnswersTo(a: Accounts, es: seq<Event>): seq<Answer>
    decreases es
  {
    if es == [] then []
    else
      var (a', answer) := Perform(a, es[0]);
      if IsRetention(es[0]) then AnswersTo(a', es[1..]) else [answer] + AnswersTo(a', es[1..])
  }

  /** The clock does not go back and stays within the calendar, and no confirmation comes at the very instant at
      which its token expires; `full` is the run without retention, in which every generated token is new. */
  ghost predicate Timely(full: Accounts, es: seq<Event>, clock: Instant)
    decreases es
  {
    es != [] ==>
      && clock <= es[0].at && Formattable(es[0].at)
      && (es[0].Login? ==> Formattable(es[0].at + SESSION_LIFETIME) && HashOf(es[0].token) !in full.sessions)
      && (es[0].Confirm? && HashOf(es[0].token) in full.tokens ==>
            Parse(full.tokens[HashOf(es[0].token)].expiresAt) != Some(es[0].at))
      && (es[0].Issue? ==> Formattable(es[0].at + es[0].lifetime) && HashOf(es[0].token) !in full.tokens)
      && Timely(if IsRetention(es[0]) then full else Perform(full, es[0]).0, es[1..], es[0].at)
  }

  ghost predicate SessionsKept(full: map<TokenHash, SessionRow>, kept: map<TokenHash, SessionRow>, clock: Instant) {
    && (forall h | h in full :: Written(full[h].expiresAt))
    && (forall h | h in kept :: h in full && kept[h] == full[h])
    && (forall h | h in full && h !in kept :: Expired(full[h].expiresAt, clock))
  }

  ghost predicate TokensKept(full: map<TokenHash, TokenRow>, kept: map<TokenHash, TokenRow>, clock: Instant) {
    && (forall h | h in full :: Written(full[h].expiresAt))
    && (forall h | h in kept :: h in full && kept[h] == full[h])
    && (forall h | h in full && h !in kept :: Expired(full[h].expiresAt, clock))
  }

  /** `kept` has the rows of `full` except some that have expired. */
  ghost predicate OnlyDeadMissing(full: Accounts, kept: Accounts, clock: Instant) {
    && kept.users == full.users
    && SessionsKept(full.sessions, kept.sessions, clock)
    && TokensKept(full.tokens, kept.tokens, clock)
  }

  lemma SessionStored(full: map<TokenHash, SessionRow>, kept: map<TokenHash, SessionRow>, clock: Instant, h: TokenHash,
                      row: SessionRow)
    requires SessionsKept(full, kept, clock) && Written(row.expiresAt)
    ensures SessionsKept(full[h := row], kept[h := row], clock)
  {}

  lemma SessionDropped(full: map<TokenHash, SessionRow>, kept: map<TokenHash, SessionRow>, clock: Instant, h: TokenHash)
    requires SessionsKept(full, kept, clock)
    ensures SessionsKept(full - {h}, kept - {h}, clock)
    ensures h !in kept ==> kept - {h} == kept
  {}

  lemma ResetsDropped(full: map<TokenHash, TokenRow>, kept: map<TokenHash, TokenRow>, clock: Instant, h: TokenHash,
                      user: string)
    requires TokensKept(full, kept, clock)
    ensures TokensKept(WithoutResets(full - {h}, user), WithoutResets(kept - {h}, user), clock)
  {}

  lemma TokenStored(full: map<TokenHash, TokenRow>, kept: map<TokenHash, TokenRow>, clock: Instant, h: TokenHash,
                    row: TokenRow)
    requires TokensKept(full, kept, clock) && Written(row.expiresAt)
    ensures TokensKept(full[h := row], kept[h := row], clock)
  {}

  lemma ClockMoves(full: Accounts, kept: Accounts, now: Instant, later: Instant)
    requires OnlyDeadMissing(full, kept, now) && now <= later
    ensures OnlyDeadMissing(full, kept, later)
  {}

  lemma RetentionRemovesDead(full: Accounts, kept: Accounts, e: Event)
    requires OnlyDeadMissing(full, kept, e.at) && IsRetention(e) && Formattable(e.at)
    ensures OnlyDeadMissing(full, Perform(kept, e).0, e.at)
  {
    forall h | h in kept.sessions
      ensures TextAtMost(kept.sessions[h].expiresAt, Format(e.at)) <==> Expired(full.sessions[h].expiresAt, e.at) {
      SweepMeansExpired(full.sessions[h].expiresAt, e.at);
    }
    forall h | h in kept.tokens
      ensures TextAtMost(kept.tokens[h].expiresAt, Format(e.at)) <==> Expired(full.tokens[h].expiresAt, e.at) {
      SweepMeansExpired(full.tokens[h].expiresAt, e.at);
    }
  }

  ghost predicate SameAnswer(full: Accounts, kept: Accounts, e: Event) {
    && Perform(full, e).1 == Perform(kept, e).1
    && OnlyDeadMissing(Perform(full, e).0, Perform(kept, e).0, e.at)
  }

  lemma LoginStores(a: Accounts, e: Event, row: SessionRow)
    requires e.Login? && HashOf(e.token) !in a.sessions
    requires row == SessionRow(HashOf(e.csrf), e.scope, e.subject, Format(e.at + SESSION_LIFETIME), Format(e.at))
    ensures Perform(a, e) == if e.scope == "admin" || e.scope == "user"
                             then (a.(sessions := a.sessions[HashOf(e.token) := row]), Granted(e.subject))
                             else (a, Denied)
  {}

  lemma SameLogin(full: Accounts, kept: Accounts, e: Event)
    requires OnlyDeadMissing(full, kept, e.at) && e.Login?
    requires Formattable(e.at + SESSION_LIFETIME) && HashOf(e.token) !in full.sessions
    ensures SameAnswer(full, kept, e)
  {
    var h, row := HashOf(e.token),
      SessionRow(HashOf(e.csrf), e.scope, e.subject, Format(e.at + SESSION_LIFETIME), Format(e.at));
    assert h !in kept.sessions;
    assert Written(row.expiresAt);
    LoginStores(full, e, row);
    LoginStores(kept, e, row);
    SessionStored(full.sessions, kept.sessions, e.at, h, row);
  }

  lemma SameVisit(full: Accounts, kept: Accounts, e: Event)
    requires OnlyDeadMissing(full, kept, e.at) && e.Visit?
    ensures SameAnswer(full, kept, e)
  {
    var h := HashOf(e.token);
    if e.token != "" && h in full.sessions && full.sessions[h].scope == e.scope {
      var row := full.sessions[h];
      if Expired(row.expiresAt, e.at) {
        SessionDropped(full.sessions, kept.sessions, e.at, h);
        assert Perform(full, e).1 == Denied && Perform(kept, e).1 == Denied;
      } else {
        assert h in kept.sessions;
        SessionStored(full.sessions, kept.sessions, e.at, h, row.(lastSeen := Format(e.at)));
      }
    }
  }

  lemma IssueStores(a: Accounts, e: Event, row: TokenRow)
    requires e.Issue? && HashOf(e.token) !in a.tokens
    requires row == TokenRow(e.user, e.purpose, Format(e.at + e.lifetime), Format(e.at))
    ensures Perform(a, e) == (a.(tokens := a.tokens[HashOf(e.token) := row]), Granted(e.user))
  {}

  lemma SameIssue(full: Accounts, kept: Accounts, e: Event)
    requires OnlyDeadMissing(full, kept, e.at) && e.Issue?
    requires Formattable(e.at + e.lifetime) && HashOf(e.token) !in full.tokens
    ensures SameAnswer(full, kept, e)
  {
    var h, row := HashOf(e.token), TokenRow(e.user, e.purpose, Format(e.at + e.lifetime), Format(e.at));
    assert h !in kept.tokens;
    assert Written(row.expiresAt);
    IssueStores(full, e, row);
    IssueStores(kept, e, row);
    TokenStored(full.tokens, kept.tokens, e.at, h, row);
  }

  lemma TokenDropped(full: map<TokenHash, TokenRow>, kept: map<TokenHash, TokenRow>, clock: Instant, h: TokenHash)
    requires TokensKept(full, kept, clock)
    ensures TokensKept(full - {h}, kept - {h}, clock)
  {}

  lemma SameConfirm(full: Accounts, kept: Accounts, e: Event)
    requires OnlyDeadMissing(full, kept, e.at) && e.Confirm?
    requires HashOf(e.token) in full.tokens ==> Parse(full.tokens[HashOf(e.token)].expiresAt) != Some(e.at)
    ensures SameAnswer(full, kept, e)
  {
    var h := HashOf(e.token);
    if h in full.tokens && full.tokens[h].purpose == "confirm" && !ConfirmExpired(full.tokens[h].expiresAt, e.at) {
      assert h in kept.tokens;
      TokenDropped(full.tokens, kept.tokens, e.at, h);
    }
  }

  lemma UserRowsDropped(full: Accounts, kept: Accounts, clock: Instant, user: string)
    requires OnlyDeadMissing(full, kept, clock)
    ensures SessionsKept(SessionsWithout(full.sessions, user), SessionsWithout(kept.sessions, user), clock)
    ensures TokensKept(TokensWithout(full.tokens, user), TokensWithout(kept.tokens, user), clock)
  {}

  lemma SameBlockOrDelete(full: Accounts, kept: Accounts, e: Event)
    requires OnlyDeadMissing(full, kept, e.at) && (e.Block? || e.Delete?)
    ensures SameAnswer(full, kept, e)
  {
    UserRowsDropped(full, kept, e.at, e.user);
  }

  lemma SameReset(full: Accounts, kept: Accounts, e: Event)
    requires OnlyDeadMissing(full, kept, e.at) && e.Reset?
    ensures SameAnswer(full, kept, e)
  {
    var h := HashOf(e.token);
    if h in full.tokens && full.tokens[h].purpose == "reset" && !Expired(full.tokens[h].expiresAt, e.at) {
      assert h in kept.tokens;
      ResetsDropped(full.tokens, kept.tokens, e.at, h, full.tokens[h].user);
    }
  }

  lemma SameStep(full: Accounts, kept: Accounts, e: Event)
    requires OnlyDeadMissing(full, kept, e.at) && !IsRetention(e) && Timely(full, [e], e.at)
    ensures SameAnswer(full, kept, e)
  {
    if e.Login? { SameLogin(full, kept, e); }
    if e.Visit? { SameVisit(full, kept, e); }
    if e.Issue? { SameIssue(full, kept, e); }
    if e.Confirm? { SameConfirm(full, kept, e); }
    if e.Block? || e.Delete? { SameBlockOrDelete(full, kept, e); }
    if e.Reset? { SameReset(full, kept, e); }
  }

  lemma {:induction false} AnswersUnchanged(full: Accounts, kept: Accounts, es: seq<Event>, clock: Instant)
    requires OnlyDeadMissing(full, kept, clock) && Timely(full, es, clock)
    ensures AnswersTo(kept, es) == AnswersTo(full, WithoutRetention(es))
    decreases es
  {
    if es != [] {
      var e := es[0];
      ClockMoves(full, kept, clock, e.at);
      if IsRetention(e) {
        RetentionRemovesDead(full, kept, e);
        AnswersUnchanged(full, Perform(kept, e).0, es[1..], e.at);
      } else {
        SameStep(full, kept, e);
        AnswersUnchanged(Perform(full, e).0, Perform(kept, e).0, es[1..], e.at);
        assert WithoutRetention(es)[1..] == WithoutRetention(es[1..]);
      }
    }
  }

  /** Retention is unobservable: however often and whenever it runs, every login, visit, token request, password
      reset and confirmation is accepted or refused as it would be if expired rows were never deleted, while users
      are blocked and deleted in between. */
  lemma {:induction false} RetentionIsUnobservable(a: Accounts, es: seq<Event>, clock: Instant)
    requires WrittenAccounts(a) && Timely(a, es, clock)
    ensures AnswersTo(a, es) == AnswersTo(a, WithoutRetention(es))
  {
    AnswersUnchanged(a, a, es, clock);
  }

  // ---------------------------------------------------------------- which refusal a reset gets

  /** The results of the password resets, with the reason when one is refused. */
  function ResetResults(a: Accounts, es: seq<Event>): seq<ResetResult>
    decreases es
  {
    if es == [] then []
    else
      var rest := ResetResults(Perform(a, es[0]).0, es[1..]);
      if es[0].Reset? then [ResetPassword(a, es[0].token, es[0].password, es[0].at).1] + rest else rest
  }

  /** A reset comes with a reset token that retention has already deleted. */
  ghost predicate IsSweptReset(full: Accounts, kept: Accounts, e: Event) {
    e.Reset? && HashOf(e.token) !in kept.tokens
    && HashOf(e.token) in full.tokens && full.tokens[HashOf(e.token)].purpose == "reset"
  }

  ghost predicate NoSweptReset(full: Accounts, kept: Accounts, es: seq<Event>)
    decreases es
  {
    es != [] ==>
      && !IsSweptReset(full, kept, es[0])
      && NoSweptReset(if IsRetention(es[0]) then full else Perform(full, es[0]).0, Perform(kept, es[0]).0, es[1..])
  }

  lemma NoSweptStep(full: Accounts, kept: Accounts, e: Event, es: seq<Event>)
    ensures NoSweptReset(full, kept, [e] + es) <==>
            && !IsSweptReset(full, kept, e)
            && NoSweptReset(if IsRetention(e) then full else Perform(full, e).0, Perform(kept, e).0, es)
  {
    assert ([e] + es)[1..] == es;
  }

  lemma ResultDiffers(full: Accounts, kept: Accounts, e: Event)
    requires OnlyDeadMissing(full, kept, e.at) && e.Reset?
    ensures IsSweptReset(full, kept, e) <==>
            ResetPassword(full, e.token, e.password, e.at).1 != ResetPassword(kept, e.token, e.password, e.at).1
    ensures IsSweptReset(full, kept, e) ==>
              && ResetPassword(full, e.token, e.password, e.at).1 == ResetExpired
              && ResetPassword(kept, e.token, e.password, e.at).1 == ResetInvalid
  {}

  lemma ResultsStep(a: Accounts, e: Event, es: seq<Event>)
    ensures ResetResults(a, [e] + es) ==
            (if e.Reset? then [ResetPassword(a, e.token, e.password, e.at).1] else [])
            + ResetResults(Perform(a, e).0, es)
  {
    assert ([e] + es)[1..] == es;
  }

  lemma ResultsOfOne(full: Accounts, kept: Accounts, e: Event, es: seq<Event>, es': seq<Event>)
    requires OnlyDeadMissing(full, kept, e.at)
    ensures ResetResults(kept, [e] + es') == ResetResults(full, [e] + es) <==>
            && !IsSweptReset(full, kept, e)
            && ResetResults(Perform(kept, e).0, es') == ResetResults(Perform(full, e).0, es)
  {
    ResultsStep(full, e, es);
    ResultsStep(kept, e, es');
    if e.Reset? {
      ResultDiffers(full, kept, e);
      SameHead(ResetPassword(full, e.token, e.password, e.at).1, ResetPassword(kept, e.token, e.password, e.at).1,
               ResetResults(Perform(full, e).0, es), ResetResults(Perform(kept, e).0, es'));
    }
  }

  lemma {:induction false} ResultsCompared(full: Accounts, kept: Accounts, es: seq<Event>, clock: Instant)
    requires OnlyDeadMissing(full, kept, clock) && Timely(full, es, clock)
    ensures NoSweptReset(full, kept, es) <==> ResetResults(kept, es) == ResetResults(full, WithoutRetention(es))
    decreases es
  {
    if es != [] {
      var e := es[0];
      ClockMoves(full, kept, clock, e.at);
      assert es == [e] + es[1..];
      if IsRetention(e) {
        RetentionRemovesDead(full, kept, e);
        ResultsCompared(full, Perform(kept, e).0, es[1..], e.at);
        ResultsStep(kept, e, es[1..]);
        NoSweptStep(full, kept, e, es[1..]);
      } else {
        SameStep(full, kept, e);
        ResultsCompared(Perform(full, e).0, Perform(kept, e).0, es[1..], e.at);
        assert WithoutRetention(es) == [e] + WithoutRetention(es[1..]);
        NoSweptStep(full, kept, e, es[1..]);
        ResultsOfOne(full, kept, e, WithoutRetention(es[1..]), es[1..]);
      }
    }
  }

  lemma SameHead(x: ResetResult, y: ResetResult, a: seq<ResetResult>, b: seq<ResetResult>)
    ensures [x] + a == [y] + b <==> x == y && a == b
  {
    assert ([x] + a)[0] == x && ([y] + b)[0] == y && ([x] + a)[1..] == a && ([y] + b)[1..] == b;
  }

  /** With the reasons of refusals: retention changes the result of a password reset in a run if and only if some reset
      comes with a token that retention has deleted. It is then refused as invalid instead of expired. */
  lemma {:induction false} ResetsUnchangedIffNoneSwept(a: Accounts, es: seq<Event>, clock: Instant)
    requires WrittenAccounts(a) && Timely(a, es, clock)
    ensures ResetResults(a, es) == ResetResults(a, WithoutRetention(es)) <==> NoSweptReset(a, a, es)
  {
    ResultsCompared(a, a, es, clock);
  }

  // ---------------------------------------------------------------- round trips

  /** A session token opens its own session, with the subject and CSRF secret it was created for, exactly
      until the second in which its lifetime ends, and never a session of the other scope. */
  lemma SessionRoundTrip(a: Accounts, a': Accounts, token: string, csrf: string, scope: string, subject: string,
                         created: Instant, asked: string, now: Instant, wrote: bool)
    requires CreateSession(a, token, csrf, scope, subject, created) == Some(a') && token != ""
    requires Formattable(created + SESSION_LIFETIME)
    ensures var session := LoadSession(a', token, asked, now, wrote).1;
            && (session.Some? <==> asked == scope && now < (created + SESSION_LIFETIME) / SECOND * SECOND)
            && (session.Some? ==> session.value.subject == subject && session.value.csrf == HashOf(csrf))
  {
    ParseFormat(created + SESSION_LIFETIME);
  }

  /** A reset with a token that is there. */
  lemma ResetWithRow(a: Accounts, token: string, row: TokenRow, password: string, now: Instant)
    requires HashOf(token) in a.tokens && a.tokens[HashOf(token)] == row
             && row.purpose == "reset" && row.user in a.users
    ensures var (after, result) := ResetPassword(a, token, password, now);
            && result == (if Expired(row.expiresAt, now) then ResetExpired else ResetDone(row.user))
            && (result.ResetDone? ==> row.user in after.users && after.users[row.user].password == password)
  {}

  /** An issued reset token resets the password of the user it was issued to, exactly until it expires. */
  lemma ResetRoundTrip(a: Accounts, token: string, user: string, lifetime: nat, created: Instant, password: string,
                       now: Instant)
    requires HashOf(token) !in a.tokens && user in a.users && Formattable(created + lifetime)
    ensures var issued := IssueToken(a, token, user, "reset", lifetime, created);
            && issued.Some?
            && var (after, result) := ResetPassword(issued.value, token, password, now);
               && (result.ResetDone? <==> now < (created + lifetime) / SECOND * SECOND)
               && (result.ResetDone? ==>
                     result.user == user && user in after.users && after.users[user].password == password)
  {
    var row := TokenRow(user, "reset", Format(created + lifetime), Format(created));
    ParseFormat(created + lifetime);
    ResetWithRow(a.(tokens := a.tokens[HashOf(token) := row]), token, row, password, now);
  }

  /** An issued confirmation token confirms the address of its user, up to and including the second it expires, and a
      token of another purpose confirms nothing. */
  lemma ConfirmRoundTrip(a: Accounts, token: string, user: string, purpose: string, lifetime: nat, created: Instant,
                         now: Instant)
    requires HashOf(token) !in a.tokens && Formattable(created + lifetime)
    ensures var issued := IssueToken(a, token, user, purpose, lifetime, created);
            && issued.Some?
            && (ConfirmEmail(issued.value, token, now).1 == Some(user) <==>
                  purpose == "confirm" && now <= (created + lifetime) / SECOND * SECOND)
  {
    ParseFormat(created + lifetime);
  }

  // ---------------------------------------------------------------- resets

  /** A reset token works once, and using one uses up every reset token of the user. */
  lemma ResetTokensAreSingleUse(a: Accounts, token: string, password: string, now: Instant,
                                other: string, password': string, later: Instant)
    requires ResetPassword(a, token, password, now).1.ResetDone?
    requires var user := ResetPassword(a, token, password, now).1.user;
             other == token || (HashOf(other) in a.tokens && a.tokens[HashOf(other)].user == user)
    ensures !ResetPassword(ResetPassword(a, token, password, now).0, other, password', later).1.ResetDone?
  {}

  /** A refused reset changes nothing; a reset that goes through changes one password and deletes reset
      tokens of that user only. */
  lemma ResetChangesOneUser(a: Accounts, token: string, password: string, now: Instant, user: string, h: TokenHash)
    ensures var (a', result) := ResetPassword(a, token, password, now);
            && (!result.ResetDone? ==> a' == a)
            && (result.ResetDone? && user in a.users ==>
                  user in a'.users && a'.users[user] ==
                    if user == result.user then a.users[user].(password := password) else a.users[user])
            && (result.ResetDone? && h in a.tokens ==>
                  (h !in a'.tokens <==> a.tokens[h].user == result.user && a.tokens[h].purpose == "reset"))
            && a'.sessions == a.sessions
  {}
}

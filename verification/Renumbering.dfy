/**
 Two logs that agree row by row up to their sequences: what a cursor cuts off, a page returns and a
 conflict query finds is then the same in both, whatever the sequences are.
 */
module Renumbering {
  import opened Schema
  import opened PushSpec
  import opened Replication

  /** How two runs are compared. Bare: the same requests reach both, and the conflicts a reply lists are not
      looked at. As sent: the same requests, and conflicts are compared up to their sequences. Renumbered: so are
      conflicts, but the last seen sequences of a request are translated from one numbering to the other. */
  datatype View = Bare | AsSent | Renumbered

  /** An operation up to what the view disregards. */
  function Blank(v: View, op: Operation): Operation {
    if v.Renumbered? then op.(lastSeen := 0) else op
  }

  function Blanks(v: View, ops: seq<Operation>): seq<Operation> {
    seq(|ops|, i requires 0 <= i < |ops| => Blank(v, ops[i]))
  }

  function StripRow(v: View, row: OpRow): OpRow {
    row.(op := Blank(v, row.op), sequence := None)
  }

  /** Rows up to their sequences. */
  function Strip(v: View, rows: seq<OpRow>): seq<OpRow> {
    seq(|rows|, i requires 0 <= i < |rows| => StripRow(v, rows[i]))
  }

  function Nameless(c: Conflict): Conflict {
    c.(sequence := 0)
  }

  /** Conflicts up to their sequences. */
  function Named(conflicts: seq<Conflict>): seq<Conflict> {
    seq(|conflicts|, i requires 0 <= i < |conflicts| => Nameless(conflicts[i]))
  }

  lemma StripAppend(v: View, a: seq<OpRow>, b: seq<OpRow>)
    ensures Strip(v, a + b) == Strip(v, a) + Strip(v, b)
  {}

  lemma NamedAppend(a: seq<Conflict>, b: seq<Conflict>)
    ensures Named(a + b) == Named(a) + Named(b)
  {}

  lemma StripAt(v: View, a: seq<OpRow>, b: seq<OpRow>)
    requires Strip(v, a) == Strip(v, b)
    ensures |a| == |b|
    ensures forall i | 0 <= i < |a| :: StripRow(v, a[i]) == StripRow(v, b[i])
  {
    assert |Strip(v, a)| == |a| && |Strip(v, b)| == |b|;
    forall i | 0 <= i < |a| ensures StripRow(v, a[i]) == StripRow(v, b[i]) {
      assert Strip(v, a)[i] == Strip(v, b)[i];
    }
  }

  lemma StripIds(v: View, rows: seq<OpRow>)
    ensures OpIds(Strip(v, rows)) == OpIds(rows)
  {
    var stripped := Strip(v, rows);
    forall id | id in OpIds(rows) ensures id in OpIds(stripped) {
      var i :| 0 <= i < |rows| && rows[i].op.opId == id;
      assert stripped[i] in stripped;
    }
    forall id | id in OpIds(stripped) ensures id in OpIds(rows) {
      var i :| 0 <= i < |stripped| && stripped[i].op.opId == id;
      assert rows[i] in rows;
    }
  }

  // ---------------------------------------------------------------- selections

  /** Clauses that agree position by position select the same positions. */
  lemma {:induction false} SelectAligned(w: Where, w': Where, a: seq<OpRow>, b: seq<OpRow>) returns (at: seq<nat>)
    requires |a| == |b| && forall i | 0 <= i < |a| :: Matches(w, a[i]) <==> Matches(w', b[i])
    ensures |at| == |Select(w, a)| == |Select(w', b)|
    ensures forall j | 0 <= j < |at| :: at[j] < |a| && Select(w, a)[j] == a[at[j]] && Select(w', b)[j] == b[at[j]]
  {
    at := [];
    if a != [] {
      var n := |a| - 1;
      at := SelectAligned(w, w', a[..n], b[..n]);
      if Matches(w, a[n]) {
        at := at + [n];
      }
    }
  }

  lemma StripSelected(v: View, w: Where, w': Where, a: seq<OpRow>, b: seq<OpRow>)
    requires Strip(v, a) == Strip(v, b) && |a| == |b|
    requires forall i | 0 <= i < |a| :: Matches(w, a[i]) <==> Matches(w', b[i])
    ensures Strip(v, Select(w, a)) == Strip(v, Select(w', b))
  {
    var at := SelectAligned(w, w', a, b);
    StripAt(v, a, b);
  }

  /** A clause that does not look at sequences. */
  lemma SelectStripped(v: View, w: Where, a: seq<OpRow>, b: seq<OpRow>)
    requires w.OfUser? || w.NotOfUser? || w.InScope?
    requires Strip(v, a) == Strip(v, b)
    ensures Strip(v, Select(w, a)) == Strip(v, Select(w, b))
  {
    StripAt(v, a, b);
    forall i | 0 <= i < |a| ensures Matches(w, a[i]) <==> Matches(w, b[i]) {
      assert StripRow(v, a[i]).scope == a[i].scope && StripRow(v, b[i]).scope == b[i].scope;
    }
    StripSelected(v, w, w, a, b);
  }

  lemma {:induction false} BuryStripped(v: View, m: map<EntityKey, Tombstone>, a: seq<OpRow>, b: seq<OpRow>)
    requires Strip(v, a) == Strip(v, b)
    ensures Bury(m, a) == Bury(m, b)
  {
    StripAt(v, a, b);
    if a != [] {
      var n := |a| - 1;
      assert Strip(v, a)[..n] == Strip(v, a[..n]) && Strip(v, b)[..n] == Strip(v, b[..n]);
      BuryStripped(v, m, a[..n], b[..n]);
      assert StripRow(v, a[n]) == StripRow(v, b[n]);
    }
  }

  // ---------------------------------------------------------------- cursors

  /** The cursors m and n cut two logs at the same place. */
  ghost predicate SameCut(a: seq<OpRow>, b: seq<OpRow>, m: int, n: int) {
    |a| == |b| && forall i | 0 <= i < |a| :: Number(a[i]) > m <==> Number(b[i]) > n
  }

  lemma CutAppend(a: seq<OpRow>, b: seq<OpRow>, m: int, n: int, more: seq<OpRow>, more': seq<OpRow>)
    requires SameCut(a, b, m, n) && |more| == |more'|
    requires (forall row | row in more :: Number(row) > m) && (forall row | row in more' :: Number(row) > n)
    ensures SameCut(a + more, b + more', m, n)
  {}

  lemma CutSelect(w: Where, a: seq<OpRow>, b: seq<OpRow>, m: int, n: int)
    requires SameCut(a, b, m, n) && forall i | 0 <= i < |a| :: Matches(w, a[i]) <==> Matches(w, b[i])
    ensures SameCut(Select(w, a), Select(w, b), m, n)
  {
    var at := SelectAligned(w, w, a, b);
  }

  lemma CutAtPosition(a: seq<OpRow>, b: seq<OpRow>, counter: nat, counter': nat, p: nat)
    requires Numbered(a, counter) && Numbered(b, counter') && p < |a| == |b|
    ensures SameCut(a, b, Number(a[p]), Number(b[p]))
  {
    forall i | 0 <= i < |a| ensures Number(a[i]) > Number(a[p]) <==> i > p {
      assert i < p ==> Number(a[i]) < Number(a[p]);
    }
    forall i | 0 <= i < |b| ensures Number(b[i]) > Number(b[p]) <==> i > p {
      assert i < p ==> Number(b[i]) < Number(b[p]);
    }
  }

  /** How many rows of a log a sequence reaches. */
  function Reach(rows: seq<OpRow>, n: int): nat {
    if rows == [] then 0
    else if Number(rows[|rows| - 1]) <= n then |rows|
    else Reach(rows[..|rows| - 1], n)
  }

  /** A last seen sequence that is 0, or that reaches some row. */
  predicate NamesARow(rows: seq<OpRow>, n: int) {
    n <= 0 || Reach(rows, n) > 0
  }

  /** The sequence that reaches as far in `b` as `n` does in `a`: that of the last row reached, or one that is
      just below the first row when none is. */
  function Renumber(a: seq<OpRow>, b: seq<OpRow>, n: int): int {
    var k := Reach(a, n);
    if n <= 0 || k > |b| then n
    else if k > 0 then Number(b[k - 1])
    else if b == [] then n else Number(b[0]) - 1
  }

  lemma {:induction false} ReachCuts(rows: seq<OpRow>, counter: nat, n: int)
    requires Numbered(rows, counter)
    ensures Reach(rows, n) <= |rows|
    ensures forall i | 0 <= i < |rows| :: Number(rows[i]) > n <==> i >= Reach(rows, n)
  {
    if rows != [] {
      if Number(rows[|rows| - 1]) > n {
        ReachCuts(rows[..|rows| - 1], counter, n);
      }
    }
  }

  lemma RenumberCuts(a: seq<OpRow>, b: seq<OpRow>, counter: nat, counter': nat, n: int)
    requires Numbered(a, counter) && Numbered(b, counter') && |a| == |b|
    ensures SameCut(a, b, n, Renumber(a, b, n))
    ensures (n < 0 <==> Renumber(a, b, n) < 0) && (Renumber(a, b, n) > 0 ==> n > 0)
    ensures NamesARow(a, n) && n > 0 ==> Renumber(a, b, n) > 0
  {
    var k := Reach(a, n);
    ReachCuts(a, counter, n);
    if n > 0 && k > 0 {
      CutAtPosition(a, b, counter, counter', k - 1);
    }
  }

  // ---------------------------------------------------------------- pages

  lemma AfterAligned(a: seq<OpRow>, b: seq<OpRow>, v: View, scope: Scope, m: int, n: int, counter: nat, counter': nat)
    requires Strip(v, a) == Strip(v, b) && SameCut(a, b, m, n) && Numbered(a, counter) && Numbered(b, counter')
    ensures forall i | 0 <= i < |a| :: Matches(After(scope, m), a[i]) <==> Matches(After(scope, n), b[i])
  {
    StripAt(v, a, b);
    forall i | 0 <= i < |a| ensures Matches(After(scope, m), a[i]) <==> Matches(After(scope, n), b[i]) {
      assert StripRow(v, a[i]).scope == a[i].scope && StripRow(v, b[i]).scope == b[i].scope;
      assert Number(a[i]) > m <==> Number(b[i]) > n;
    }
  }

  /** Pages taken at the same cut agree up to sequences and move both cursors to the same cut. */
  lemma PagesAlike(v: View, a: seq<OpRow>, b: seq<OpRow>, counter: nat, counter': nat,
                   scope: Scope, m: int, n: int, limit: nat, x: nat, y: nat)
    requires Strip(v, a) == Strip(v, b) && SameCut(a, b, m, n) && Numbered(a, counter) && Numbered(b, counter')
    requires m <= counter && n <= counter'
    ensures var page, page' := Page(a, scope, m, limit, x), Page(b, scope, n, limit, y);
            && Strip(v, page.ops) == Strip(v, page'.ops) && page.hasMore == page'.hasMore
            && SameCut(a, b, page.pageLast, page'.pageLast)
            && page.pageLast <= counter && page'.pageLast <= counter'
  {
    AfterAligned(a, b, v, scope, m, n, counter, counter');
    var at := SelectAligned(After(scope, m), After(scope, n), a, b);
    StripSelected(v, After(scope, m), After(scope, n), a, b);
    var rest, rest' := Select(After(scope, m), a), Select(After(scope, n), b);
    PageOfRest(a, scope, m, limit, x, rest);
    PageOfRest(b, scope, n, limit, y, rest');
    var k := if |rest| > limit then limit else |rest|;
    assert Strip(v, rest[..k]) == Strip(v, rest)[..k] && Strip(v, rest'[..k]) == Strip(v, rest')[..k];
    if k > 0 {
      CutAtPosition(a, b, counter, counter', at[k - 1]);
      assert rest[k - 1] == a[at[k - 1]] && rest'[k - 1] == b[at[k - 1]];
    }
  }

  // ---------------------------------------------------------------- batches

  /** The same operation but for its last seen sequence. */
  predicate Resembles(v: View, op: Operation, op': Operation) {
    && Blank(v, op) == Blank(v, op')
    && (op.lastSeen < 0 <==> op'.lastSeen < 0)
  }

  predicate BatchResembles(v: View, ops: seq<Operation>, ops': seq<Operation>) {
    |ops| == |ops'| && forall i | 0 <= i < |ops| :: Resembles(v, ops[i], ops'[i])
  }

  lemma ResemblesFields(v: View, op: Operation, op': Operation)
    requires Resembles(v, op, op')
    ensures op.opId == op'.opId && op.entityType == op'.entityType && op.entityId == op'.entityId
    ensures op.opType == op'.opType && op.payload == op'.payload && op.clientSequence == op'.clientSequence
  {
    assert Blank(v, op).opId == op.opId && Blank(v, op').opId == op'.opId;
  }

  lemma {:induction false} ChecksResemble(limits: Limits, v: View, ops: seq<Operation>, ops': seq<Operation>)
    requires BatchResembles(v, ops, ops')
    ensures CheckOperations(limits, ops) == CheckOperations(limits, ops')
  {
    if ops != [] {
      ResemblesFields(v, ops[0], ops'[0]);
      assert CheckOperation(limits, ops[0]) == CheckOperation(limits, ops'[0]);
      forall i | 0 <= i < |ops| - 1 ensures Resembles(v, ops[1..][i], ops'[1..][i]) {
        assert Resembles(v, ops[i + 1], ops'[i + 1]);
      }
      ChecksResemble(limits, v, ops[1..], ops'[1..]);
    }
  }

  lemma {:induction false} ReferencesResemble(v: View, a: seq<RefRow>, b: seq<RefRow>, scope: Scope,
                                              ops: seq<Operation>, ops': seq<Operation>)
    requires BatchResembles(v, ops, ops') && forall h: Sha :: RefSize(a, scope, h) == RefSize(b, scope, h)
    ensures CheckReferences(a, scope, ops) == CheckReferences(b, scope, ops')
  {
    if ops != [] {
      ResemblesFields(v, ops[0], ops'[0]);
      forall i | 0 <= i < |ops| - 1 ensures Resembles(v, ops[1..][i], ops'[1..][i]) {
        assert Resembles(v, ops[i + 1], ops'[i + 1]);
      }
      ReferencesResemble(v, a, b, scope, ops[1..], ops'[1..]);
    }
  }

  lemma BlankIds(v: View, a: seq<Operation>, b: seq<Operation>)
    requires Blanks(v, a) == Blanks(v, b)
    ensures Ids(a) == Ids(b)
  {
    assert |Blanks(v, a)| == |a| && |Blanks(v, b)| == |b|;
    forall i | 0 <= i < |a| ensures a[i].opId == b[i].opId {
      assert Blanks(v, a)[i] == Blanks(v, b)[i];
    }
  }

  /** Logs that know the same ids of a batch leave the same operations of it. */
  lemma {:induction false} FreshResembles(v: View, log: seq<OpRow>, log': seq<OpRow>, ops: seq<Operation>,
                                          ops': seq<Operation>)
    requires BatchResembles(v, ops, ops')
    requires forall op | op in ops :: op.opId in OpIds(log) <==> op.opId in OpIds(log')
    ensures Blanks(v, Fresh(log, ops)) == Blanks(v, Fresh(log', ops'))
  {
    if ops != [] {
      var n := |ops| - 1;
      FreshResembles(v, log, log', ops[..n], ops'[..n]);
      var earlier, earlier' := Fresh(log, ops[..n]), Fresh(log', ops'[..n]);
      BlankIds(v, earlier, earlier');
      ResemblesFields(v, ops[n], ops'[n]);
      assert ops[n] in ops;
      assert Blanks(v, earlier + [ops[n]]) == Blanks(v, earlier) + [Blank(v, ops[n])];
      assert Blanks(v, earlier' + [ops'[n]]) == Blanks(v, earlier') + [Blank(v, ops'[n])];
    }
  }

  lemma StripNewRows(v: View, d: Device, key: string, at: Timestamp, m: nat, n: nat,
                     added: seq<Operation>, added': seq<Operation>)
    requires Blanks(v, added) == Blanks(v, added')
    ensures Strip(v, NewRows(d, key, at, m, added)) == Strip(v, NewRows(d, key, at, n, added'))
  {
    assert |Blanks(v, added)| == |added| && |Blanks(v, added')| == |added'|;
    forall i | 0 <= i < |added| ensures Blank(v, added[i]) == Blank(v, added'[i]) {
      assert Blanks(v, added)[i] == Blanks(v, added')[i];
    }
  }

  // ---------------------------------------------------------------- conflicts

  /** A push from device `d` reports a row as a conflict of an operation. */
  predicate Reports(d: Device, op: Operation, row: OpRow) {
    op.lastSeen > 0 && Matches(RivalsOf(d, op), row)
  }

  /** Whatever the second log reports, the first does. */
  ghost predicate ReportsLess(a: seq<OpRow>, b: seq<OpRow>, d: Device, op: Operation, op': Operation) {
    |a| == |b| && forall i | 0 <= i < |a| :: Reports(d, op', b[i]) ==> Reports(d, op, a[i])
  }

  ghost predicate BatchReportsLess(a: seq<OpRow>, b: seq<OpRow>, d: Device, ops: seq<Operation>, ops': seq<Operation>) {
    |ops| == |ops'| && forall j | 0 <= j < |ops| :: ReportsLess(a, b, d, ops[j], ops'[j])
  }

  /** A row is reported in the first log and its counterpart in the second is not. */
  ghost predicate Slips(a: seq<OpRow>, b: seq<OpRow>, d: Device, op: Operation, op': Operation) {
    exists i | 0 <= i < |a| && i < |b| :: Reports(d, op, a[i]) && !Reports(d, op', b[i])
  }

  ghost predicate BatchSlips(a: seq<OpRow>, b: seq<OpRow>, d: Device, ops: seq<Operation>, ops': seq<Operation>) {
    exists j | 0 <= j < |ops| && j < |ops'| :: Slips(a, b, d, ops[j], ops'[j])
  }

  /** The numbers of the second log are no higher. */
  ghost predicate Lower(a: seq<OpRow>, b: seq<OpRow>) {
    |a| == |b| && forall i | 0 <= i < |a| :: Number(b[i]) <= Number(a[i])
  }

  lemma SameBesidesNumber(v: View, x: OpRow, y: OpRow)
    requires StripRow(v, x) == StripRow(v, y)
    ensures x.scope == y.scope && x.device == y.device && x.op.opId == y.op.opId && x.op.opType == y.op.opType
    ensures x.op.entityType == y.op.entityType && x.op.entityId == y.op.entityId
  {
    assert StripRow(v, x).scope == x.scope && StripRow(v, y).scope == y.scope;
    assert StripRow(v, x).op == Blank(v, x.op) && StripRow(v, y).op == Blank(v, y.op);
  }

  /** An operation of `d` on the same entity as the row, which another device logged and which is not a delete. */
  predicate IsRival(d: Device, op: Operation, row: OpRow) {
    && row.scope == d.scope && row.device != d.id && !IsDelete(row.op)
    && row.op.entityType == op.entityType && row.op.entityId == op.entityId
  }

  lemma RivalsAlike(v: View, x: OpRow, y: OpRow, d: Device, op: Operation, op': Operation)
    requires StripRow(v, x) == StripRow(v, y) && Resembles(v, op, op') && x.sequence.Some? && y.sequence.Some?
    ensures IsRival(d, op, x) <==> IsRival(d, op', y)
    ensures Reports(d, op, x) <==> op.lastSeen > 0 && IsRival(d, op, x) && Number(x) > op.lastSeen
    ensures Reports(d, op', y) <==> op'.lastSeen > 0 && IsRival(d, op', y) && Number(y) > op'.lastSeen
  {
    SameBesidesNumber(v, x, y);
    ResemblesFields(v, op, op');
  }

  /** The same operation on a log with lower numbers reports less, and it slips exactly where its last seen
      sequence lies between a rival's number and the lower number of its counterpart. */
  lemma SlipsAsSent(v: View, a: seq<OpRow>, b: seq<OpRow>, counter: nat, counter': nat, d: Device, op: Operation)
    requires Strip(v, a) == Strip(v, b) && Numbered(a, counter) && Numbered(b, counter') && Lower(a, b)
    ensures ReportsLess(a, b, d, op, op)
    ensures Slips(a, b, d, op, op) <==>
            exists i | 0 <= i < |a| :: IsRival(d, op, a[i]) && Number(b[i]) <= op.lastSeen < Number(a[i])
  {
    StripAt(v, a, b);
    forall i | 0 <= i < |a|
      ensures Reports(d, op, a[i]) <==> op.lastSeen > 0 && IsRival(d, op, a[i]) && Number(a[i]) > op.lastSeen
      ensures Reports(d, op, b[i]) <==> op.lastSeen > 0 && IsRival(d, op, a[i]) && Number(b[i]) > op.lastSeen
    {
      RivalsAlike(v, a[i], b[i], d, op, op);
    }
  }

  /** A translated operation reports less too, and it slips exactly when it had seen something, its translation has
      not, and it has a rival at all. */
  lemma SlipsTranslated(v: View, a: seq<OpRow>, b: seq<OpRow>, counter: nat, counter': nat, d: Device,
                        op: Operation, op': Operation)
    requires Strip(v, a) == Strip(v, b) && Numbered(a, counter) && Numbered(b, counter')
    requires Resembles(v, op, op') && op'.lastSeen == Renumber(a, b, op.lastSeen)
    ensures ReportsLess(a, b, d, op, op')
    ensures Slips(a, b, d, op, op') <==>
            op.lastSeen > 0 && op'.lastSeen == 0 && exists i | 0 <= i < |a| :: IsRival(d, op, a[i])
    ensures NamesARow(a, op.lastSeen) ==> !Slips(a, b, d, op, op')
  {
    StripAt(v, a, b);
    RenumberCuts(a, b, counter, counter', op.lastSeen);
    forall i | 0 <= i < |a|
      ensures Reports(d, op, a[i]) <==> op.lastSeen > 0 && IsRival(d, op, a[i]) && Number(a[i]) > op.lastSeen
      ensures Reports(d, op', b[i]) <==> op'.lastSeen > 0 && IsRival(d, op, a[i]) && Number(a[i]) > op.lastSeen
    {
      RivalsAlike(v, a[i], b[i], d, op, op');
      assert Number(a[i]) > op.lastSeen <==> Number(b[i]) > op'.lastSeen;
    }
    if op.lastSeen > 0 && op'.lastSeen == 0 {
      forall i | 0 <= i < |a| ensures Number(a[i]) > op.lastSeen {
        assert Number(b[i]) > 0;
      }
    }
  }

  // ---------------------------------------------------------------- how many conflicts

  lemma {:induction false} SelectsNoMore(w: Where, w': Where, a: seq<OpRow>, b: seq<OpRow>)
    requires |a| == |b| && forall i | 0 <= i < |a| :: Matches(w', b[i]) ==> Matches(w, a[i])
    ensures |Select(w', b)| <= |Select(w, a)|
    ensures (exists i | 0 <= i < |a| :: Matches(w, a[i]) && !Matches(w', b[i])) ==> |Select(w', b)| < |Select(w, a)|
  {
    if a != [] {
      var n := |a| - 1;
      SelectsNoMore(w, w', a[..n], b[..n]);
      if i :| 0 <= i < |a| && Matches(w, a[i]) && !Matches(w', b[i]) {
        if i < n {
          assert Matches(w, a[..n][i]) && !Matches(w', b[..n][i]);
        }
      }
    }
  }

  lemma ConflictsOfOne(v: View, a: seq<OpRow>, b: seq<OpRow>, d: Device, op: Operation, op': Operation)
    requires Strip(v, a) == Strip(v, b) && Resembles(v, op, op') && ReportsLess(a, b, d, op, op')
    ensures |ConflictsOf(b, d, op')| <= |ConflictsOf(a, d, op)|
    ensures Slips(a, b, d, op, op') ==> |ConflictsOf(b, d, op')| < |ConflictsOf(a, d, op)|
    ensures !Slips(a, b, d, op, op') ==> Named(ConflictsOf(a, d, op)) == Named(ConflictsOf(b, d, op'))
  {
    var w, w' := RivalsOf(d, op), RivalsOf(d, op');
    if op.lastSeen > 0 && op'.lastSeen > 0 {
      forall i | 0 <= i < |a| ensures Reports(d, op, a[i]) <==> Matches(w, a[i]) {}
      forall i | 0 <= i < |b| ensures Reports(d, op', b[i]) <==> Matches(w', b[i]) {}
      SelectsNoMore(w, w', a, b);
      if !Slips(a, b, d, op, op') {
        SelectedAlike(v, a, b, d, op, op');
      }
    } else if op.lastSeen > 0 {
      NothingReported(w, a, |a|);
    } else if op'.lastSeen > 0 {
      NothingReported(w', b, |b|);
    }
  }

  /** A selection is empty iff nothing matches. */
  lemma NothingReported(w: Where, rows: seq<OpRow>, n: nat)
    requires n == |rows|
    ensures Select(w, rows) == [] <==> forall i | 0 <= i < n :: !Matches(w, rows[i])
  {
    if forall i | 0 <= i < n :: !Matches(w, rows[i]) {
      SelectNone(w, rows);
    } else {
      var i :| 0 <= i < n && Matches(w, rows[i]);
      SelectMember(w, rows, rows[i]);
    }
  }

  lemma SelectedAlike(v: View, a: seq<OpRow>, b: seq<OpRow>, d: Device, op: Operation, op': Operation)
    requires Strip(v, a) == Strip(v, b) && |a| == |b| && Resembles(v, op, op')
    requires forall i | 0 <= i < |a| :: Matches(RivalsOf(d, op), a[i]) <==> Matches(RivalsOf(d, op'), b[i])
    ensures Named(ConflictsWith(op, Select(RivalsOf(d, op), a)))
         == Named(ConflictsWith(op', Select(RivalsOf(d, op'), b)))
  {
    var at := SelectAligned(RivalsOf(d, op), RivalsOf(d, op'), a, b);
    var x, y := Select(RivalsOf(d, op), a), Select(RivalsOf(d, op'), b);
    StripAt(v, a, b);
    ResemblesFields(v, op, op');
    forall j | 0 <= j < |at| ensures Nameless(ConflictOf(op, x[j])) == Nameless(ConflictOf(op', y[j])) {
      SameBesidesNumber(v, a[at[j]], b[at[j]]);
    }
  }

  lemma BatchSlipsLast(a: seq<OpRow>, b: seq<OpRow>, d: Device, ops: seq<Operation>, ops': seq<Operation>)
    requires |ops| == |ops'| > 0
    ensures var n := |ops| - 1;
            BatchSlips(a, b, d, ops, ops') <==>
            BatchSlips(a, b, d, ops[..n], ops'[..n]) || Slips(a, b, d, ops[n], ops'[n])
  {
    var n := |ops| - 1;
    if j :| 0 <= j < |ops| && Slips(a, b, d, ops[j], ops'[j]) {
      assert j < n ==> Slips(a, b, d, ops[..n][j], ops'[..n][j]);
    }
    if j :| 0 <= j < n && Slips(a, b, d, ops[..n][j], ops'[..n][j]) {
      assert Slips(a, b, d, ops[j], ops'[j]);
    }
  }

  lemma {:induction false} ConflictsCompared(v: View, a: seq<OpRow>, b: seq<OpRow>, d: Device,
                                             ops: seq<Operation>, ops': seq<Operation>)
    requires Strip(v, a) == Strip(v, b)
    requires BatchResembles(v, ops, ops') && BatchReportsLess(a, b, d, ops, ops')
    ensures |Conflicts(b, d, ops')| <= |Conflicts(a, d, ops)|
    ensures BatchSlips(a, b, d, ops, ops') ==> |Conflicts(b, d, ops')| < |Conflicts(a, d, ops)|
    ensures !BatchSlips(a, b, d, ops, ops') ==> Named(Conflicts(a, d, ops)) == Named(Conflicts(b, d, ops'))
  {
    if ops != [] {
      var n := |ops| - 1;
      ConflictsCompared(v, a, b, d, ops[..n], ops'[..n]);
      ConflictsOfOne(v, a, b, d, ops[n], ops'[n]);
      BatchSlipsLast(a, b, d, ops, ops');
      NamedAppend(Conflicts(a, d, ops[..n]), ConflictsOf(a, d, ops[n]));
      NamedAppend(Conflicts(b, d, ops'[..n]), ConflictsOf(b, d, ops'[n]));
    }
  }

  /** Two logs give a batch the same conflicts, up to sequences, if and only if no operation slips. */
  lemma ConflictsAlike(v: View, a: seq<OpRow>, b: seq<OpRow>, d: Device, ops: seq<Operation>, ops': seq<Operation>)
    requires Strip(v, a) == Strip(v, b)
    requires BatchResembles(v, ops, ops') && BatchReportsLess(a, b, d, ops, ops')
    ensures Named(Conflicts(a, d, ops)) == Named(Conflicts(b, d, ops')) <==> !BatchSlips(a, b, d, ops, ops')
  {
    ConflictsCompared(v, a, b, d, ops, ops');
    assert |Named(Conflicts(a, d, ops))| == |Conflicts(a, d, ops)|;
    assert |Named(Conflicts(b, d, ops'))| == |Conflicts(b, d, ops')|;
  }
}

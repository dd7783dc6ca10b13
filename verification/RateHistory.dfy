/** Whole histories of the limiter: deleting expired rows is unobservable, and the window holds at every
    instant, not only at admissions. */
module RateHistory {
  import opened Basics
  import opened RateLimit
  import opened RetryTimes

  // ---- Eviction -------------------------------------------------------------------------------

  lemma {:induction false} EvictTwice(rows: seq<Row>, h: real, later: real)
    requires h <= later
    ensures Evict(Evict(rows, h), later) == Evict(rows, later)
    decreases |rows|
  {
    if |rows| > 0 {
      EvictTwice(rows[1..], h, later);
      AppendUncons([rows[0]], Evict(rows[1..], h));
      AppendNil(Evict(rows[1..], h));
    }
  }

  lemma {:induction false} LiveAfterEvict(rows: seq<Row>, tenant: string, h: real, horizon: real)
    requires h <= horizon
    ensures Live(Evict(rows, h), tenant, horizon) == Live(rows, tenant, horizon)
    decreases |rows|
  {
    if |rows| > 0 {
      LiveAfterEvict(rows[1..], tenant, h, horizon);
      AppendUncons([rows[0]], Evict(rows[1..], h));
      AppendNil(Evict(rows[1..], h));
      AppendNil(Live(rows[1..], tenant, horizon));
    }
  }

  lemma {:induction false} EvictAppend(rows: seq<Row>, row: Row, h: real)
    requires row.createdAt > h
    ensures Evict(rows + [row], h) == Evict(rows, h) + [row]
    decreases |rows|
  {
    if |rows| == 0 {
      AppendNil([row]);
      assert |[row][1..]| == 0;
    } else {
      EvictAppend(rows[1..], row, h);
      AppendUncons(rows, [row]);
      Associative(if rows[0].createdAt <= h then [] else [rows[0]], Evict(rows[1..], h), [row]);
    }
  }

  lemma {:induction false} EvictSetTokens(rows: seq<Row>, requestId: string, tokens: nat, h: real)
    ensures SetTokens(Evict(rows, h), requestId, tokens) == Evict(SetTokens(rows, requestId, tokens), h)
    decreases |rows|
  {
    if |rows| > 0 {
      EvictSetTokens(rows[1..], requestId, tokens, h);
      var updated := if rows[0].requestId == requestId then rows[0].(tokens := tokens, state := Settled) else rows[0];
      AppendUncons([updated], SetTokens(rows[1..], requestId, tokens));
      AppendUncons([rows[0]], Evict(rows[1..], h));
      AppendNil(Evict(rows[1..], h));
      AppendNil(Evict(SetTokens(rows[1..], requestId, tokens), h));
    }
  }

  lemma {:induction false} EvictRemove(rows: seq<Row>, requestId: string, h: real)
    ensures Remove(Evict(rows, h), requestId) == Evict(Remove(rows, requestId), h)
    decreases |rows|
  {
    if |rows| > 0 {
      EvictRemove(rows[1..], requestId, h);
      AppendUncons([rows[0]], Evict(rows[1..], h));
      AppendNil(Evict(rows[1..], h));
      AppendUncons([rows[0]], Remove(rows[1..], requestId));
      AppendNil(Remove(rows[1..], requestId));
      AppendNil(Evict(Remove(rows[1..], requestId), h));
    }
  }

  /** All request ids in the rows are known. */
  predicate IdsIn(rows: seq<Row>, seen: set<string>) {
    forall row | row in rows :: row.requestId in seen
  }

  /** A row survives exactly when it is younger than the horizon. */
  lemma {:induction false} EvictsExpired(rows: seq<Row>, h: real)
    ensures forall row :: row in Evict(rows, h) <==> row in rows && row.createdAt > h
    decreases |rows|
  {
    if |rows| > 0 {
      EvictsExpired(rows[1..], h);
      assert rows == [rows[0]] + rows[1..];
    }
  }

  lemma EvictKeeps(rows: seq<Row>, h: real)
    ensures forall row | row in Evict(rows, h) :: row in rows
  {
    EvictsExpired(rows, h);
  }

  lemma {:induction false} RemoveKeeps(rows: seq<Row>, requestId: string)
    ensures forall row :: row in Remove(rows, requestId) <==> row in rows && row.requestId != requestId
    decreases |rows|
  {
    if |rows| > 0 {
      RemoveKeeps(rows[1..], requestId);
      assert rows == [rows[0]] + rows[1..];
    }
  }

  lemma {:induction false} SetTokensKeeps(rows: seq<Row>, requestId: string, tokens: nat)
    ensures |SetTokens(rows, requestId, tokens)| == |rows|
    ensures forall i | 0 <= i < |rows| ::
              SetTokens(rows, requestId, tokens)[i]
              == if rows[i].requestId == requestId then rows[i].(tokens := tokens, state := Settled) else rows[i]
    decreases |rows|
  {
    if |rows| > 0 {
      SetTokensKeeps(rows[1..], requestId, tokens);
      assert forall i | 1 <= i < |rows| :: rows[i] == rows[1..][i - 1];
    }
  }

  lemma {:induction false} LiveAppend(rows: seq<Row>, row: Row, tenant: string, horizon: real)
    ensures Total(Live(rows + [row], tenant, horizon))
         == Total(Live(rows, tenant, horizon)) + if row.tenant == tenant && row.createdAt > horizon then row.tokens else 0
    decreases |rows|
  {
    if |rows| == 0 {
      AppendNil([row]);
      assert |[row][1..]| == 0;
    } else {
      LiveAppend(rows[1..], row, tenant, horizon);
      AppendUncons(rows, [row]);
      var counted := rows[0].tenant == tenant && rows[0].createdAt > horizon;
      TotalCons(counted, rows[0], Live(rows[1..], tenant, horizon));
      TotalCons(counted, rows[0], Live(rows[1..] + [row], tenant, horizon));
    }
  }

  lemma TotalCons(counted: bool, row: Row, rest: seq<Row>)
    ensures Total((if counted then [row] else []) + rest) == (if counted then row.tokens else 0) + Total(rest)
  {
    if counted {
      AppendUncons([row], rest);
    }
    AppendNil(rest);
  }

  /** What a clocked operation may read: nothing before the last clock reading. */
  function TimeAfter(op: Op, last: real): real {
    match op
    case Reserve(now, _, _, _) => now
    case Usage(now, _) => now
    case _ => last
  }

  function SeenAfter(op: Op, seen: set<string>): set<string> {
    if op.Reserve? then seen + {op.requestId} else seen
  }

  /** The table is the log without the rows at or below some horizon that has already passed. */
  ghost predicate Trimmed(cfg: Config, table: seq<Row>, log: seq<Row>, last: real, h: real) {
    table == Evict(log, h) && h <= last - cfg.window
  }

  /** Before an admission check: after its eviction the table is the log without the expired rows, and the id is new. */
  ghost predicate CheckReady(cfg: Config, table: seq<Row>, log: seq<Row>, op: Op) {
    && op.Reserve?
    && Evict(table, op.now - cfg.window) == Evict(log, op.now - cfg.window)
    && !HasRequest(log, op.requestId) && !HasRequest(Evict(log, op.now - cfg.window), op.requestId)
  }

  /** Expired rows change neither the usage nor the retry time. */
  lemma SameView(cfg: Config, log: seq<Row>, tenant: string, now: real, needed: nat)
    ensures Used(cfg, Evict(log, now - cfg.window), tenant, now) == Used(cfg, log, tenant, now)
    ensures RetryAfter(cfg, Evict(log, now - cfg.window), tenant, now, needed) == RetryAfter(cfg, log, tenant, now, needed)
  {
    LiveAfterEvict(log, tenant, now - cfg.window, now - cfg.window);
  }

  /** What a usage query reports, on the table as it is, decides the next admission check, which evicts first:
      a new request fits exactly when usage and estimate are within the limit. */
  lemma UsageDecidesAdmission(cfg: Config, rows: seq<Row>, tenant: string, now: real, estimate: nat, requestId: string)
    requires !HasRequest(Evict(rows, now - cfg.window), requestId)
    ensures var used := Used(cfg, rows, tenant, now);
            var outcome := Step(cfg, rows, Reserve(now, tenant, estimate, requestId), true).1;
            if used + estimate <= cfg.limit then outcome == Admitted(used + estimate)
            else outcome.Refused? && outcome.used == used
  {
    SameView(cfg, rows, tenant, now, estimate);
  }

  /** A request id that is still in the table breaks the index, and the whole check is undone, eviction included. */
  lemma ConflictUndoes(cfg: Config, rows: seq<Row>, op: Op)
    requires op.Reserve?
    ensures var (after, outcome) := Step(cfg, rows, op, true);
            && (outcome.Conflict? <==> Used(cfg, rows, op.tenant, op.now) + op.estimate <= cfg.limit
                                       && HasRequest(Evict(rows, op.now - cfg.window), op.requestId))
            && (outcome.Conflict? ==> after == rows)
  {
    SameView(cfg, rows, op.tenant, op.now, op.estimate);
  }

  lemma SameOutcome(cfg: Config, table: seq<Row>, log: seq<Row>, op: Op)
    requires CheckReady(cfg, table, log, op)
    ensures Step(cfg, table, op, true).1 == Step(cfg, log, op, false).1
  {
    SameView(cfg, log, op.tenant, op.now, op.estimate);
  }

  lemma SameRowsKept(cfg: Config, table: seq<Row>, log: seq<Row>, op: Op)
    requires cfg.Valid() && CheckReady(cfg, table, log, op)
    ensures Step(cfg, table, op, true).0 == Evict(Step(cfg, log, op, false).0, op.now - cfg.window)
  {
    SameView(cfg, log, op.tenant, op.now, op.estimate);
    EvictAppend(log, Row(op.tenant, op.requestId, op.estimate, op.now, Reserved), op.now - cfg.window);
  }

  lemma IdsAfterReserve(cfg: Config, log: seq<Row>, op: Op, seen: set<string>)
    requires op.Reserve? && IdsIn(log, seen)
    ensures IdsIn(Step(cfg, log, op, false).0, SeenAfter(op, seen))
  {
  }

  lemma ReserveUnobservable(cfg: Config, table: seq<Row>, log: seq<Row>, op: Op, last: real, h: real, seen: set<string>)
    requires cfg.Valid() && Trimmed(cfg, table, log, last, h) && IdsIn(log, seen)
    requires op.Reserve? && last <= op.now && op.requestId !in seen
    ensures Step(cfg, table, op, true).1 == Step(cfg, log, op, false).1
    ensures Step(cfg, table, op, true).0 == Evict(Step(cfg, log, op, false).0, op.now - cfg.window)
    ensures IdsIn(Step(cfg, log, op, false).0, SeenAfter(op, seen))
  {
    EvictTwice(log, h, op.now - cfg.window);
    FreshRequest(log, op.now - cfg.window, op.requestId, seen);
    SameOutcome(cfg, table, log, op);
    SameRowsKept(cfg, table, log, op);
    IdsAfterReserve(cfg, log, op, seen);
  }

  /** An id never seen is in no row, of the log or of the table. */
  lemma FreshRequest(log: seq<Row>, h: real, requestId: string, seen: set<string>)
    requires IdsIn(log, seen) && requestId !in seen
    ensures !HasRequest(log, requestId) && !HasRequest(Evict(log, h), requestId)
  {
    EvictKeeps(log, h);
    forall i | 0 <= i < |log|
      ensures log[i].requestId != requestId
    {
      assert log[i] in log;
    }
    forall i | 0 <= i < |Evict(log, h)|
      ensures Evict(log, h)[i].requestId != requestId
    {
      assert Evict(log, h)[i] in log;
    }
  }

  /** One operation on the table and on the log: same outcome, and the table stays a trimmed log. */
  lemma StepUnobservable(cfg: Config, table: seq<Row>, log: seq<Row>, op: Op, last: real, h: real, seen: set<string>)
    returns (h': real)
    requires cfg.Valid() && Trimmed(cfg, table, log, last, h) && IdsIn(log, seen)
    requires last <= TimeAfter(op, last) && (op.Reserve? ==> op.requestId !in seen)
    ensures Step(cfg, table, op, true).1 == Step(cfg, log, op, false).1
    ensures Trimmed(cfg, Step(cfg, table, op, true).0, Step(cfg, log, op, false).0, TimeAfter(op, last), h')
    ensures IdsIn(Step(cfg, log, op, false).0, SeenAfter(op, seen))
  {
    h' := h;
    match op
    case Reserve(now, tenant, estimate, requestId) =>
      h' := now - cfg.window;
      ReserveUnobservable(cfg, table, log, op, last, h, seen);
    case Settle(requestId, actual) =>
      EvictSetTokens(log, requestId, actual, h);
      SetTokensKeeps(log, requestId, actual);
    case Release(requestId) =>
      EvictRemove(log, requestId, h);
      RemoveKeeps(log, requestId);
    case Usage(now, tenant) =>
      LiveAfterEvict(log, tenant, h, now - cfg.window);
  }

  function TimeAfterAll(ops: seq<Op>, last: real): real
    decreases |ops|
  {
    if |ops| == 0 then last else TimeAfterAll(ops[1..], TimeAfter(ops[0], last))
  }

  lemma {:induction false} RunUnobservable(cfg: Config, table: seq<Row>, log: seq<Row>, ops: seq<Op>,
                                           last: real, h: real, seen: set<string>) returns (h': real)
    requires cfg.Valid() && Trimmed(cfg, table, log, last, h) && IdsIn(log, seen)
    requires Clocked(ops, last) && FreshIds(ops, seen)
    ensures Run(cfg, table, ops, true).1 == Run(cfg, log, ops, false).1
    ensures Trimmed(cfg, Run(cfg, table, ops, true).0, Run(cfg, log, ops, false).0, TimeAfterAll(ops, last), h')
    decreases |ops|
  {
    h' := h;
    if |ops| > 0 {
      h' := StepUnobservable(cfg, table, log, ops[0], last, h, seen);
      h' := RunUnobservable(cfg, Step(cfg, table, ops[0], true).0, Step(cfg, log, ops[0], false).0, ops[1..],
                      TimeAfter(ops[0], last), h', SeenAfter(ops[0], seen));
    }
  }

  /** Main result: over any run with clock readings in order and fresh request ids, the table that deletes
      expired rows and a log that never does give the same totals, decisions and retry times. */
  lemma EvictionUnobservable(cfg: Config, ops: seq<Op>, start: real)
    requires cfg.Valid() && Clocked(ops, start) && FreshIds(ops, {})
    ensures Run(cfg, [], ops, true).1 == Run(cfg, [], ops, false).1
  {
    var _ := RunUnobservable(cfg, [], [], ops, start, start - cfg.window, {});
  }

  // ---- The window at every instant ------------------------------------------------------------

  /** A tenant's charges stamped in `(after, upTo]`. */
  function Charged(rows: seq<Row>, tenant: string, after: real, upTo: real): nat {
    if |rows| == 0 then 0
    else (if rows[0].tenant == tenant && after < rows[0].createdAt <= upTo then rows[0].tokens else 0)
         + Charged(rows[1..], tenant, after, upTo)
  }

  /** By how much settling a request at `actual` exceeds what its rows held for the tenant. */
  function Overrun(rows: seq<Row>, tenant: string, requestId: string, actual: nat): nat {
    if |rows| == 0 then 0
    else (if rows[0].tenant == tenant && rows[0].requestId == requestId && actual > rows[0].tokens
          then actual - rows[0].tokens else 0)
         + Overrun(rows[1..], tenant, requestId, actual)
  }

  /** The overruns of a whole run. */
  function Overruns(cfg: Config, log: seq<Row>, tenant: string, ops: seq<Op>): nat
    decreases |ops|
  {
    if |ops| == 0 then 0
    else (if ops[0].Settle? then Overrun(log, tenant, ops[0].requestId, ops[0].actual) else 0)
         + Overruns(cfg, Step(cfg, log, ops[0], false).0, tenant, ops[1..])
  }

  lemma {:induction false} ChargedAppend(rows: seq<Row>, row: Row, tenant: string, after: real, upTo: real)
    ensures Charged(rows + [row], tenant, after, upTo)
         == Charged(rows, tenant, after, upTo)
          + (if row.tenant == tenant && after < row.createdAt <= upTo then row.tokens else 0)
    decreases |rows|
  {
    if |rows| == 0 {
      AppendNil([row]);
      assert |[row][1..]| == 0;
    } else {
      ChargedAppend(rows[1..], row, tenant, after, upTo);
      AppendUncons(rows, [row]);
    }
  }

  /** Any window that starts no earlier than `horizon` charges at most what is live above it. */
  lemma {:induction false} ChargedWithinLive(rows: seq<Row>, tenant: string, horizon: real, after: real, upTo: real)
    requires horizon <= after
    ensures Charged(rows, tenant, after, upTo) <= Total(Live(rows, tenant, horizon))
    decreases |rows|
  {
    if |rows| > 0 {
      ChargedWithinLive(rows[1..], tenant, horizon, after, upTo);
      TotalsCons(rows[0], Live(rows[1..], tenant, horizon), horizon);
      AppendNil(Live(rows[1..], tenant, horizon));
    }
  }

  lemma {:induction false} ChargedSetTokens(rows: seq<Row>, requestId: string, actual: nat, tenant: string, after: real, upTo: real)
    ensures Charged(SetTokens(rows, requestId, actual), tenant, after, upTo)
         <= Charged(rows, tenant, after, upTo) + Overrun(rows, tenant, requestId, actual)
    decreases |rows|
  {
    if |rows| > 0 {
      ChargedSetTokens(rows[1..], requestId, actual, tenant, after, upTo);
      var updated := if rows[0].requestId == requestId then rows[0].(tokens := actual, state := Settled) else rows[0];
      AppendUncons([updated], SetTokens(rows[1..], requestId, actual));
    }
  }

  lemma {:induction false} ChargedRemove(rows: seq<Row>, requestId: string, tenant: string, after: real, upTo: real)
    ensures Charged(Remove(rows, requestId), tenant, after, upTo) <= Charged(rows, tenant, after, upTo)
    decreases |rows|
  {
    if |rows| > 0 {
      ChargedRemove(rows[1..], requestId, tenant, after, upTo);
      AppendUncons([rows[0]], Remove(rows[1..], requestId));
      AppendNil(Remove(rows[1..], requestId));
    }
  }

  /** A tenant's charges in the window that ends at `t`. */
  function ChargedAt(cfg: Config, rows: seq<Row>, tenant: string, t: real): nat {
    Charged(rows, tenant, t - cfg.window, t)
  }

  /** No window charges the tenant more than `bound`. */
  ghost predicate WindowsHold(cfg: Config, rows: seq<Row>, tenant: string, bound: nat) {
    forall t: real :: ChargedAt(cfg, rows, tenant, t) <= bound
  }

  lemma StepWindows(cfg: Config, log: seq<Row>, op: Op, last: real, tenant: string, bound: nat)
    requires cfg.limit <= bound && WindowsHold(cfg, log, tenant, bound)
    requires last <= TimeAfter(op, last)
    ensures var over := if op.Settle? then Overrun(log, tenant, op.requestId, op.actual) else 0;
            WindowsHold(cfg, Step(cfg, log, op, false).0, tenant, bound + over)
  {
    var over := if op.Settle? then Overrun(log, tenant, op.requestId, op.actual) else 0;
    forall t: real
      ensures ChargedAt(cfg, Step(cfg, log, op, false).0, tenant, t) <= bound + over
    {
      assert ChargedAt(cfg, log, tenant, t) <= bound;
      match op
      case Reserve(now, who, estimate, requestId) =>
        ChargedAppend(log, Row(who, requestId, estimate, now, Reserved), tenant, t - cfg.window, t);
        if now <= t {
          ChargedWithinLive(log, tenant, now - cfg.window, t - cfg.window, t);
        }
      case Settle(requestId, actual) =>
        ChargedSetTokens(log, requestId, actual, tenant, t - cfg.window, t);
      case Release(requestId) =>
        ChargedRemove(log, requestId, tenant, t - cfg.window, t);
      case Usage(_, _) =>
    }
  }

  lemma {:induction false} RunWindows(cfg: Config, log: seq<Row>, ops: seq<Op>, last: real, tenant: string, bound: nat)
    requires cfg.limit <= bound && WindowsHold(cfg, log, tenant, bound) && Clocked(ops, last)
    ensures WindowsHold(cfg, Run(cfg, log, ops, false).0, tenant, bound + Overruns(cfg, log, tenant, ops))
    decreases |ops|
  {
    if |ops| > 0 {
      StepWindows(cfg, log, ops[0], last, tenant, bound);
      var over := if ops[0].Settle? then Overrun(log, tenant, ops[0].requestId, ops[0].actual) else 0;
      RunWindows(cfg, Step(cfg, log, ops[0], false).0, ops[1..], TimeAfter(ops[0], last), tenant, bound + over);
    }
  }

  /** Main result: at every time, a tenant's charges stamped in the window ending there exceed the limit by at
      most what its settlements have exceeded their reservations; without overruns, never. */
  lemma SlidingWindowHolds(cfg: Config, ops: seq<Op>, start: real, tenant: string, t: real)
    requires Clocked(ops, start)
    ensures ChargedAt(cfg, Run(cfg, [], ops, false).0, tenant, t) <= cfg.limit + Overruns(cfg, [], tenant, ops)
  {
    RunWindows(cfg, [], ops, start, tenant, cfg.limit);
    assert WindowsHold(cfg, Run(cfg, [], ops, false).0, tenant, cfg.limit + Overruns(cfg, [], tenant, ops));
  }

  predicate NoneAfter(rows: seq<Row>, time: real) {
    forall row | row in rows :: row.createdAt <= time
  }

  lemma {:induction false} RunNoneAfter(cfg: Config, log: seq<Row>, ops: seq<Op>, last: real)
    requires NoneAfter(log, last) && Clocked(ops, last)
    ensures NoneAfter(Run(cfg, log, ops, false).0, TimeAfterAll(ops, last))
    decreases |ops|
  {
    if |ops| > 0 {
      if ops[0].Settle? {
        SetTokensKeeps(log, ops[0].requestId, ops[0].actual);
      } else if ops[0].Release? {
        RemoveKeeps(log, ops[0].requestId);
      }
      RunNoneAfter(cfg, Step(cfg, log, ops[0], false).0, ops[1..], TimeAfter(ops[0], last));
    }
  }

  lemma {:induction false} UsedIsCharged(rows: seq<Row>, tenant: string, horizon: real, now: real)
    requires NoneAfter(rows, now)
    ensures Total(Live(rows, tenant, horizon)) == Charged(rows, tenant, horizon, now)
    decreases |rows|
  {
    if |rows| > 0 {
      assert rows[0] in rows;
      UsedIsCharged(rows[1..], tenant, horizon, now);
      TotalsCons(rows[0], Live(rows[1..], tenant, horizon), horizon);
      AppendNil(Live(rows[1..], tenant, horizon));
    }
  }

  /** The same bound on the table itself: what it reports, now or later, never exceeds it. */
  lemma TableWithinLimit(cfg: Config, ops: seq<Op>, start: real, tenant: string, now: real)
    requires cfg.Valid() && Clocked(ops, start) && FreshIds(ops, {}) && TimeAfterAll(ops, start) <= now
    ensures Used(cfg, Run(cfg, [], ops, true).0, tenant, now) <= cfg.limit + Overruns(cfg, [], tenant, ops)
  {
    var h := RunUnobservable(cfg, [], [], ops, start, start - cfg.window, {});
    var log := Run(cfg, [], ops, false).0;
    LiveAfterEvict(log, tenant, h, now - cfg.window);
    RunNoneAfter(cfg, [], ops, start);
    UsedIsCharged(log, tenant, now - cfg.window, now);
    SlidingWindowHolds(cfg, ops, start, tenant, now);
  }
}

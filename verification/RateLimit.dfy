/** The token-aware sliding window, as functions on the usage table: eviction, totals, retry times, and the
    four operations of the limiter. */
module RateLimit {
  import opened Basics

  datatype RowState = Reserved | Settled

  datatype Row = Row(tenant: string, requestId: string, tokens: nat, createdAt: real, state: RowState)

  datatype Config = Config(limit: nat, window: real) {
    ghost predicate Valid() {
      window > 0.0
    }
  }

  /** Rows younger than `horizon`. */
  function Evict(rows: seq<Row>, horizon: real): seq<Row> {
    if |rows| == 0 then []
    else (if rows[0].createdAt <= horizon then [] else [rows[0]]) + Evict(rows[1..], horizon)
  }

  /** One tenant's rows younger than `horizon`. */
  function Live(rows: seq<Row>, tenant: string, horizon: real): seq<Row> {
    if |rows| == 0 then []
    else (if rows[0].tenant == tenant && rows[0].createdAt > horizon then [rows[0]] else [])
         + Live(rows[1..], tenant, horizon)
  }

  function Total(rows: seq<Row>): nat {
    if |rows| == 0 then 0 else rows[0].tokens + Total(rows[1..])
  }

  /** Tokens of a tenant inside the window that ends at `now`. */
  function Used(cfg: Config, rows: seq<Row>, tenant: string, now: real): nat {
    Total(Live(rows, tenant, now - cfg.window))
  }

  predicate SortedByTime(rows: seq<Row>) {
    forall i, j | 0 <= i < j < |rows| :: rows[i].createdAt <= rows[j].createdAt
  }

  function Insert(row: Row, rows: seq<Row>): seq<Row> {
    if |rows| == 0 then [row]
    else if row.createdAt <= rows[0].createdAt then [row] + rows
    else [rows[0]] + Insert(row, rows[1..])
  }

  /** The rows oldest first. */
  function ByTime(rows: seq<Row>): seq<Row> {
    if |rows| == 0 then [] else Insert(rows[0], ByTime(rows[1..]))
  }

  /** When the oldest rows, taken one by one, first give back `shortfall` tokens: the age of the last one taken. */
  function FirstEnough(rows: seq<Row>, freed: nat, shortfall: int): Option<real> {
    if |rows| == 0 then None
    else if freed + rows[0].tokens >= shortfall then Some(rows[0].createdAt)
    else FirstEnough(rows[1..], freed + rows[0].tokens, shortfall)
  }

  function MaxReal(a: real, b: real): real {
    if a >= b then a else b
  }

  /** Seconds until enough quota frees up, given the live rows oldest first. */
  function WaitFor(live: seq<Row>, cfg: Config, now: real, needed: nat): real {
    var shortfall := Total(live) + needed - cfg.limit;
    if shortfall <= 0 then 0.0
    else
      match FirstEnough(live, 0, shortfall)
      case Some(createdAt) => MaxReal(0.0, createdAt + cfg.window - now)
      case None => cfg.window
  }

  function RetryAfter(cfg: Config, rows: seq<Row>, tenant: string, now: real, needed: nat): real {
    WaitFor(ByTime(Live(rows, tenant, now - cfg.window)), cfg, now, needed)
  }

  function SetTokens(rows: seq<Row>, requestId: string, tokens: nat): seq<Row> {
    if |rows| == 0 then []
    else [if rows[0].requestId == requestId then rows[0].(tokens := tokens, state := Settled) else rows[0]]
         + SetTokens(rows[1..], requestId, tokens)
  }

  function Remove(rows: seq<Row>, requestId: string): seq<Row> {
    if |rows| == 0 then []
    else (if rows[0].requestId == requestId then [] else [rows[0]]) + Remove(rows[1..], requestId)
  }

  predicate HasRequest(rows: seq<Row>, requestId: string) {
    exists i :: 0 <= i < |rows| && rows[i].requestId == requestId
  }

  // ---- Operations -----------------------------------------------------------------------------

  datatype Op =
    | Reserve(now: real, tenant: string, estimate: nat, requestId: string)
    | Settle(requestId: string, actual: nat)
    | Release(requestId: string)
    | Usage(now: real, tenant: string)

  /** `Conflict` is the unique index refusing a request id that is already in the table. */
  datatype Outcome =
    | Admitted(used: nat)
    | Refused(used: nat, retryAfter: real)
    | Conflict
    | Done
    | Reported(used: nat)

  /** One transaction. The table deletes expired rows on every admission check; a log does not. */
  function Step(cfg: Config, rows: seq<Row>, op: Op, evicting: bool): (seq<Row>, Outcome) {
    match op
    case Reserve(now, tenant, estimate, requestId) =>
      var kept := if evicting then Evict(rows, now - cfg.window) else rows;
      var used := Used(cfg, kept, tenant, now);
      if used + estimate > cfg.limit then
        (kept, Refused(used, RetryAfter(cfg, kept, tenant, now, estimate)))
      else if HasRequest(kept, requestId) then (rows, Conflict)
      else (kept + [Row(tenant, requestId, estimate, now, Reserved)], Admitted(used + estimate))
    case Settle(requestId, actual) => (SetTokens(rows, requestId, actual), Done)
    case Release(requestId) => (Remove(rows, requestId), Done)
    case Usage(now, tenant) => (rows, Reported(Used(cfg, rows, tenant, now)))
  }

  function Run(cfg: Config, rows: seq<Row>, ops: seq<Op>, evicting: bool): (seq<Row>, seq<Outcome>)
    decreases |ops|
  {
    if |ops| == 0 then (rows, [])
    else
      var (after, outcome) := Step(cfg, rows, ops[0], evicting);
      var (last, outcomes) := Run(cfg, after, ops[1..], evicting);
      (last, [outcome] + outcomes)
  }

  /** Clock readings never go backwards, starting from `from`. */
  predicate Clocked(ops: seq<Op>, from: real)
    decreases |ops|
  {
    |ops| == 0 ||
    match ops[0]
    case Reserve(now, _, _, _) => from <= now && Clocked(ops[1..], now)
    case Usage(now, _) => from <= now && Clocked(ops[1..], now)
    case _ => Clocked(ops[1..], from)
  }

  /** Every admission check brings a request id never used before. */
  predicate FreshIds(ops: seq<Op>, seen: set<string>)
    decreases |ops|
  {
    |ops| == 0 ||
    match ops[0]
    case Reserve(_, _, _, requestId) => requestId !in seen && FreshIds(ops[1..], seen + {requestId})
    case _ => FreshIds(ops[1..], seen)
  }
}

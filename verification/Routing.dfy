/** Provider outcomes, failover, and what a routed request is charged and answered. */
module Routing {
  import opened Basics
  import opened RateLimit
  import opened RateHistory
  import Tokens

  datatype Verdict = Success | RateLimited | Timeout | Unavailable | ClientError

  function Classify(status: int): Verdict {
    if status == 429 then RateLimited
    else if status == 401 || status == 403 then Unavailable
    else if status >= 500 then Unavailable
    else if status >= 400 then ClientError
    else Success
  }

  predicate FailsOver(v: Verdict) {
    v in {RateLimited, Timeout, Unavailable}
  }

  /** What a provider does when it is tried: answer (`body` is null when it is not JSON), run out of time,
      fail to connect, or make the gateway itself raise. */
  datatype Call =
    | Answered(status: int, body: Tokens.Json)
    | TimedOut
    | Unreachable
    | Raised

  function VerdictOf(c: Call): Verdict
    requires !c.Raised?
  {
    match c
    case Answered(status, _) => Classify(status)
    case TimedOut => Timeout
    case Unreachable => Unavailable
  }

  datatype Attempt = Attempt(provider: string, verdict: Verdict, status: Option<int>)

  function AttemptOf(provider: string, c: Call): Attempt
    requires !c.Raised?
  {
    Attempt(provider, VerdictOf(c), if c.Answered? then Some(c.status) else None)
  }

  /** No provider after this call is tried. */
  predicate Stops(c: Call) {
    c.Raised? || !FailsOver(VerdictOf(c))
  }

  /** The first call that stops the search, or the number of calls if all fail over. */
  function StopAt(calls: seq<Call>): (k: nat)
    ensures k <= |calls|
    ensures forall i | 0 <= i < k :: !Stops(calls[i])
    ensures k < |calls| ==> Stops(calls[k])
  {
    if |calls| == 0 || Stops(calls[0]) then 0
    else
      var k := StopAt(calls[1..]);
      assert forall i | 1 <= i <= k :: calls[i] == calls[1..][i - 1];
      1 + k
  }

  /** `k` is where the search stops; there is only one such place. */
  lemma StopAtIs(calls: seq<Call>, k: nat)
    requires k <= |calls| && (k < |calls| ==> Stops(calls[k]))
    requires forall i | 0 <= i < k :: !Stops(calls[i])
    ensures StopAt(calls) == k
  {
  }

  function Attempts(providers: seq<string>, calls: seq<Call>): seq<Attempt>
    requires |providers| == |calls| && forall c | c in calls :: !c.Raised?
  {
    seq(|calls|, i requires 0 <= i < |calls| => AttemptOf(providers[i], calls[i]))
  }

  /** The attempts made: up to and including the call that stopped the search, unless that one raised. */
  function AttemptsMade(providers: seq<string>, calls: seq<Call>): seq<Attempt>
    requires |providers| == |calls|
  {
    var k := StopAt(calls);
    var tried := if k < |calls| && !calls[k].Raised? then k + 1 else k;
    Attempts(providers[..tried], calls[..tried])
  }

  // ---- The bill -------------------------------------------------------------------------------

  datatype Bill = Charge(tokens: nat) | Free

  /** The charge of an answer: the usage it reports, or else what was reserved. */
  function AnswerCharge(body: Tokens.Json, reserved: nat): nat {
    match Tokens.ActualTokens(body)
    case None => reserved
    case Some(n) => n
  }

  ghost predicate AnyTimeout(calls: seq<Call>) {
    exists i :: 0 <= i < |calls| && calls[i].TimedOut?
  }

  ghost predicate AllTimeouts(calls: seq<Call>) {
    forall i | 0 <= i < |calls| :: calls[i].TimedOut?
  }

  /** What the reservation of an admitted request becomes. */
  ghost function BillOf(calls: seq<Call>, reserved: nat): Bill {
    var k := StopAt(calls);
    if k == |calls| then if AnyTimeout(calls) then Charge(reserved) else Free
    else if calls[k].Raised? then Free
    else Charge(AnswerCharge(calls[k].body, reserved))
  }

  /** The charge of a stream is what its relayed chunks reported, or else what was reserved; an answer that
      is not a success is charged in full. */
  ghost function StreamBillOf(rt: Tokens.Runtime, calls: seq<Call>, relayed: seq<string>, reserved: nat): Bill {
    var k := StopAt(calls);
    if k == |calls| || calls[k].Raised? then BillOf(calls, reserved)
    else if VerdictOf(calls[k]).Success? then
      match Tokens.StreamTotal(Tokens.FeedAll(rt, Tokens.EMPTY, relayed))
      case None => Charge(reserved)
      case Some(n) => Charge(n)
    else Charge(reserved)
  }

  /** The bill applied to the usage table. */
  function Billed(rows: seq<Row>, requestId: string, bill: Bill): seq<Row> {
    match bill
    case Charge(tokens) => SetTokens(rows, requestId, tokens)
    case Free => Remove(rows, requestId)
  }

  /** A request leaves no charge exactly when the gateway raised, or every provider was tried and failed
      without any of them timing out. Any other request is charged something, whatever its answer claims. */
  lemma FreeExactlyWhen(calls: seq<Call>, reserved: nat)
    ensures BillOf(calls, reserved).Free?
      <==> (if StopAt(calls) < |calls| then calls[StopAt(calls)].Raised?
            else forall i | 0 <= i < |calls| :: FailsOver(VerdictOf(calls[i])) && !calls[i].TimedOut?)
    ensures BillOf(calls, reserved).Charge? && reserved >= Tokens.MINIMUM_CHARGE
            ==> BillOf(calls, reserved).tokens >= Tokens.MINIMUM_CHARGE
  {
    var k := StopAt(calls);
    if k == |calls| {
      assert forall i | 0 <= i < |calls| :: !Stops(calls[i]);
    }
  }

  // ---- The reply ------------------------------------------------------------------------------

  datatype Reply =
    | Limited(used: nat, retryAfter: real)       // 429 from the limiter itself
    | Completion(body: Tokens.Json)              // 200
    | Streaming                                  // 200, relayed as it comes
    | Refusal(status: int)                       // the provider's 4xx, without its body
    | Exhausted(status: int)                     // 504 or 502
    | Exception

  const EMPTY_BODY := Tokens.Object(map[])

  ghost function ReplyOf(calls: seq<Call>): Reply {
    var k := StopAt(calls);
    if k == |calls| then Exhausted(if AllTimeouts(calls) then 504 else 502)
    else if calls[k].Raised? then Exception
    else if VerdictOf(calls[k]).Success? then Completion(if calls[k].body.Object? then calls[k].body else EMPTY_BODY)
    else Refusal(calls[k].status)
  }

  ghost function StreamReplyOf(calls: seq<Call>): Reply {
    var k := StopAt(calls);
    if k < |calls| && !calls[k].Raised? && VerdictOf(calls[k]).Success? then Streaming else ReplyOf(calls)
  }

  /** 504 exactly when every provider was tried and every one timed out; a relayed refusal is always a 4xx
      that the caller, not the gateway's credential or quota, caused. */
  lemma StatusExactlyWhen(calls: seq<Call>)
    requires |calls| > 0
    ensures ReplyOf(calls) == Exhausted(504) <==> AllTimeouts(calls)
    ensures ReplyOf(calls) == Exhausted(502)
      <==> !AllTimeouts(calls) && forall i | 0 <= i < |calls| :: !Stops(calls[i])
    ensures ReplyOf(calls).Refusal? ==> 400 <= ReplyOf(calls).status < 500
                                        && ReplyOf(calls).status !in {401, 403, 429}
  {
    var k := StopAt(calls);
    if k < |calls| {
      assert !calls[k].TimedOut?;
    }
  }

  // ---- By status codes ------------------------------------------------------------------------

  /** The next provider is tried after no answer, a server error, a refused credential or a spent quota. */
  predicate MovesOn(c: Call) {
    c.TimedOut? || c.Unreachable? || (c.Answered? && (c.status >= 500 || c.status in {401, 403, 429}))
  }

  /** The first `k` calls move on, and the next one does not. */
  ghost predicate EndsAt(calls: seq<Call>, k: nat) {
    k <= |calls| && (forall i | 0 <= i < k :: MovesOn(calls[i])) && (k < |calls| ==> !MovesOn(calls[k]))
  }

  lemma MovesOnExactly(c: Call)
    ensures MovesOn(c) <==> !Stops(c)
  {
  }

  lemma SearchEndsAt(calls: seq<Call>, k: nat)
    requires EndsAt(calls, k)
    ensures StopAt(calls) == k
  {
    forall i | 0 <= i < k
      ensures !Stops(calls[i])
    {
      MovesOnExactly(calls[i]);
    }
    StopAtIs(calls, k);
  }

  /** The reply by the status of the call that ended the search: below 400 the provider's body, from 400 on the
      provider's status; and if no call ended it, 504 when all timed out, else 502. */
  lemma ReplyByStatus(calls: seq<Call>, k: nat)
    requires EndsAt(calls, k)
    ensures k == |calls| ==>
              ReplyOf(calls) == Exhausted(if forall i | 0 <= i < |calls| :: calls[i].TimedOut? then 504 else 502)
    ensures k < |calls| && calls[k].Raised? ==> ReplyOf(calls) == Exception && StreamReplyOf(calls) == Exception
    ensures k < |calls| && calls[k].Answered? && calls[k].status >= 400 ==>
              ReplyOf(calls) == Refusal(calls[k].status) == StreamReplyOf(calls) && calls[k].status < 500
    ensures k < |calls| && calls[k].Answered? && calls[k].status < 400 ==>
              StreamReplyOf(calls) == Streaming
              && ReplyOf(calls) == Completion(if calls[k].body.Object? then calls[k].body else Tokens.Object(map[]))
  {
    SearchEndsAt(calls, k);
  }

  /** The attempts reported: every call up to the one that ended the search, with its provider, its verdict and
      its status; a call that raised is not among them. */
  lemma AttemptsByStatus(providers: seq<string>, calls: seq<Call>, k: nat)
    requires |providers| == |calls| && EndsAt(calls, k)
    ensures var made := AttemptsMade(providers, calls);
            && |made| == (if k < |calls| && !calls[k].Raised? then k + 1 else k)
            && forall i | 0 <= i < |made| ::
                 && made[i].provider == providers[i]
                 && made[i].status == (if calls[i].Answered? then Some(calls[i].status) else None)
                 && (made[i].verdict.Timeout? <==> calls[i].TimedOut?)
                 && (made[i].verdict.RateLimited? <==> calls[i].Answered? && calls[i].status == 429)
                 && (made[i].verdict.Success? <==> calls[i].Answered? && calls[i].status < 400)
                 && (made[i].verdict.ClientError? <==> i == k && calls[i].status >= 400)
  {
    SearchEndsAt(calls, k);
  }

  // ---- Reading the attempts back --------------------------------------------------------------

  function CountTimeouts(attempts: seq<Attempt>): nat {
    if |attempts| == 0 then 0 else (if attempts[0].verdict.Timeout? then 1 else 0) + CountTimeouts(attempts[1..])
  }

  /** The count of timeouts among the attempts tells whether any, and whether every, call timed out. */
  lemma {:induction false} TimeoutsCounted(providers: seq<string>, calls: seq<Call>)
    requires |providers| == |calls| && forall c | c in calls :: !c.Raised?
    ensures CountTimeouts(Attempts(providers, calls)) <= |calls|
    ensures CountTimeouts(Attempts(providers, calls)) > 0 <==> AnyTimeout(calls)
    ensures CountTimeouts(Attempts(providers, calls)) == |calls| <==> AllTimeouts(calls)
    decreases |calls|
  {
    if |calls| > 0 {
      var rest := calls[1..];
      TimeoutsCounted(providers[1..], rest);
      assert Attempts(providers, calls)[1..] == Attempts(providers[1..], rest);
      assert calls == [calls[0]] + rest;
      if AnyTimeout(rest) {
        var i :| 0 <= i < |rest| && rest[i].TimedOut?;
        assert calls[i + 1].TimedOut?;
      }
      if AllTimeouts(calls) {
        assert forall i | 0 <= i < |rest| :: rest[i] == calls[i + 1];
      }
    }
  }

  // ---- The whole effect of one request on the table -------------------------------------------

  lemma {:induction false} UntouchedByOthers(rows: seq<Row>, requestId: string, tokens: nat)
    requires !HasRequest(rows, requestId)
    ensures SetTokens(rows, requestId, tokens) == rows && Remove(rows, requestId) == rows
    decreases |rows|
  {
    if |rows| > 0 {
      assert rows[0].requestId != requestId;
      assert forall i | 0 <= i < |rows[1..]| :: rows[1..][i] == rows[i + 1];
      UntouchedByOthers(rows[1..], requestId, tokens);
    }
  }

  lemma {:induction false} SetTokensAppend(a: seq<Row>, b: seq<Row>, requestId: string, tokens: nat)
    ensures SetTokens(a + b, requestId, tokens) == SetTokens(a, requestId, tokens) + SetTokens(b, requestId, tokens)
    decreases |a|
  {
    if |a| == 0 {
      AppendNil(b);
      AppendNil(SetTokens(b, requestId, tokens));
    } else {
      SetTokensAppend(a[1..], b, requestId, tokens);
      AppendUncons(a, b);
      var updated := if a[0].requestId == requestId then a[0].(tokens := tokens, state := Settled) else a[0];
      Associative([updated], SetTokens(a[1..], requestId, tokens), SetTokens(b, requestId, tokens));
    }
  }

  lemma {:induction false} RemoveAppend(a: seq<Row>, b: seq<Row>, requestId: string)
    ensures Remove(a + b, requestId) == Remove(a, requestId) + Remove(b, requestId)
    decreases |a|
  {
    if |a| == 0 {
      AppendNil(b);
      AppendNil(Remove(b, requestId));
    } else {
      RemoveAppend(a[1..], b, requestId);
      AppendUncons(a, b);
      Associative(if a[0].requestId == requestId then [] else [a[0]],
                  Remove(a[1..], requestId), Remove(b, requestId));
    }
  }

  lemma BilledAppend(a: seq<Row>, b: seq<Row>, requestId: string, bill: Bill)
    ensures Billed(a + b, requestId, bill) == Billed(a, requestId, bill) + Billed(b, requestId, bill)
  {
    match bill
    case Charge(tokens) => SetTokensAppend(a, b, requestId, tokens);
    case Free => RemoveAppend(a, b, requestId);
  }

  lemma BilledUntouched(rows: seq<Row>, requestId: string, bill: Bill)
    requires !HasRequest(rows, requestId)
    ensures Billed(rows, requestId, bill) == rows
  {
    UntouchedByOthers(rows, requestId, if bill.Charge? then bill.tokens else 0);
  }

  /** What a bill makes of one row of its own. */
  function BilledRow(row: Row, bill: Bill): seq<Row> {
    if bill.Charge? then [row.(tokens := bill.tokens, state := Settled)] else []
  }

  lemma BilledSingle(row: Row, bill: Bill)
    ensures Billed([row], row.requestId, bill) == BilledRow(row, bill)
  {
    var rest := [row][1..];
    assert |rest| == 0;
    match bill
    case Charge(tokens) => assert SetTokens([row], row.requestId, tokens) == BilledRow(row, bill) + SetTokens(rest, row.requestId, tokens);
    case Free => assert Remove([row], row.requestId) == [] + Remove(rest, row.requestId);
  }

  /** A bill settles or deletes the newly appended row, and nothing else. */
  lemma BillsOnlyItsRow(rows: seq<Row>, row: Row, bill: Bill)
    requires !HasRequest(rows, row.requestId)
    ensures Billed(rows + [row], row.requestId, bill) == rows + BilledRow(row, bill)
  {
    BilledAppend(rows, [row], row.requestId, bill);
    BilledUntouched(rows, row.requestId, bill);
    BilledSingle(row, bill);
  }

  /** An admitted request finds its id in no row still inside the window, and its row at the end of them. */
  lemma AdmissionAppends(cfg: Config, rows: seq<Row>, now: real, requestId: string, tenant: string, reserved: nat)
    requires Step(cfg, rows, Reserve(now, tenant, reserved, requestId), true).1.Admitted?
    ensures !HasRequest(Evict(rows, now - cfg.window), requestId)
    ensures Step(cfg, rows, Reserve(now, tenant, reserved, requestId), true).0
         == Evict(rows, now - cfg.window) + [Row(tenant, requestId, reserved, now, Reserved)]
  {
  }

  /** The bill of a stream, by what opening it answered. */
  lemma StreamBillByReply(rt: Tokens.Runtime, calls: seq<Call>, relayed: seq<string>, reserved: nat)
    ensures var total := Tokens.StreamTotal(Tokens.FeedAll(rt, Tokens.EMPTY, relayed));
            StreamBillOf(rt, calls, relayed, reserved)
            == if StreamReplyOf(calls).Streaming? then Charge(if total.Some? then total.value else reserved)
               else if StreamReplyOf(calls).Refusal? then Charge(reserved)
               else BillOf(calls, reserved)
  {
  }

  /** The tokens a request costs: the spend its answer reports, or else the estimate; the estimate if all failed and
      one timed out; and otherwise nothing. */
  function CostOf(calls: seq<Call>, reserved: nat): nat {
    var k := StopAt(calls);
    if k < |calls| then
      if calls[k].Raised? then 0
      else if Tokens.SpendOf(calls[k].body).Some? then Tokens.SpendOf(calls[k].body).value else reserved
    else if exists i :: 0 <= i < |calls| && calls[i].TimedOut? then reserved else 0
  }

  lemma BillIsCost(calls: seq<Call>, reserved: nat)
    ensures CostOf(calls, reserved) == match BillOf(calls, reserved) case Charge(tokens) => tokens case Free => 0
  {
    var k := StopAt(calls);
    if k < |calls| && !calls[k].Raised? {
      Tokens.ActualIsSpend(calls[k].body);
    }
  }

  lemma BilledUsage(cfg: Config, rows: seq<Row>, held: Row, bill: Bill, now: real)
    requires cfg.Valid() && held.createdAt == now
    ensures Used(cfg, Evict(rows, now - cfg.window) + BilledRow(held, bill), held.tenant, now)
         == Used(cfg, rows, held.tenant, now) + match bill case Charge(tokens) => tokens case Free => 0
  {
    var kept := Evict(rows, now - cfg.window);
    LiveAfterEvict(rows, held.tenant, now - cfg.window, now - cfg.window);
    BilledTotal(kept, held, bill, now - cfg.window);
  }

  lemma BilledTotal(kept: seq<Row>, held: Row, bill: Bill, horizon: real)
    requires held.createdAt > horizon
    ensures Total(Live(kept + BilledRow(held, bill), held.tenant, horizon))
         == Total(Live(kept, held.tenant, horizon)) + match bill case Charge(tokens) => tokens case Free => 0
  {
    if bill.Charge? {
      LiveAppend(kept, held.(tokens := bill.tokens, state := Settled), held.tenant, horizon);
    } else {
      AppendNil(kept);
    }
  }

  /** Over one request that is not aborted, its tenant's usage grows by what the request costs. */
  lemma RoutedUsage(cfg: Config, rows: seq<Row>, now: real, requestId: string, tenant: string, calls: seq<Call>, reserved: nat)
    requires cfg.Valid()
    ensures var held := Row(tenant, requestId, reserved, now, Reserved);
            var after := Evict(rows, now - cfg.window) + BilledRow(held, BillOf(calls, reserved));
            Used(cfg, after, tenant, now) == Used(cfg, rows, tenant, now) + CostOf(calls, reserved)
  {
    BillIsCost(calls, reserved);
    BilledUsage(cfg, rows, Row(tenant, requestId, reserved, now, Reserved), BillOf(calls, reserved), now);
  }
}

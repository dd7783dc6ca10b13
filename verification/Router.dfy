/** The router object: admission, failover over the providers in order, and settling the bill. */
module Routers {
  import opened Basics
  import opened RateLimit
  import opened RateLimiters
  import opened Routing
  import Tokens

  class Router {
    const limiter: RateLimiter
    const providers: seq<string>

    constructor (limiter: RateLimiter, primary: string, fallbacks: seq<string>)
      ensures this.limiter == limiter && providers == [primary] + fallbacks
    {
      this.limiter := limiter;
      providers := [primary] + fallbacks;
    }

    /** The usage table once a request is over: what was there and is still inside the window, and then the
        charge of the request, if any, stamped with its admission time. */
    ghost function TableAfter(rows: seq<Row>, now: real, requestId: string, tenant: string, bill: Bill): seq<Row> {
      Evict(rows, now - limiter.cfg.window)
      + (if bill.Charge? then [Row(tenant, requestId, bill.tokens, now, Settled)] else [])
    }

    method Settle(requestId: string, body: Tokens.Json, reserved: nat)
      modifies limiter.store
      ensures limiter.store.rows
           == Billed(old(limiter.store.rows), requestId, Charge(AnswerCharge(body, reserved)))
    {
      var actual := Tokens.ActualTokens(body);
      limiter.SettleRequest(requestId, if actual.Some? then actual.value else reserved);
    }

    /** Every provider failed: charge the estimate if any of them timed out, and say which kind of failure. */
    method ExhaustProviders(requestId: string, calls: seq<Call>, attempts: seq<Attempt>, reserved: nat)
        returns (reply: Reply)
      requires |calls| == |providers| && StopAt(calls) == |calls|
      requires forall c | c in calls :: !c.Raised?
      requires attempts == Attempts(providers, calls)
      modifies limiter.store
      ensures limiter.store.rows == Billed(old(limiter.store.rows), requestId, BillOf(calls, reserved))
      ensures reply == ReplyOf(calls)
    {
      TimeoutsCounted(providers, calls);
      var timedOut := CountTimeouts(attempts);
      if timedOut > 0 {
        limiter.SettleRequest(requestId, reserved);
      } else {
        limiter.ReleaseRequest(requestId);
      }
      reply := Exhausted(if timedOut == |attempts| then 504 else 502);
    }

    /** Try the providers in order until one stops the search, then settle. */
    method Dispatch(requestId: string, calls: seq<Call>, reserved: nat) returns (reply: Reply, attempts: seq<Attempt>)
      requires |calls| == |providers|
      modifies limiter.store
      ensures limiter.store.rows == Billed(old(limiter.store.rows), requestId, BillOf(calls, reserved))
      ensures reply == ReplyOf(calls)
      ensures attempts == AttemptsMade(providers, calls)
    {
      attempts := [];
      for i := 0 to |calls|
        invariant limiter.store.rows == old(limiter.store.rows)
        invariant forall j | 0 <= j < i :: !Stops(calls[j])
        invariant attempts == Attempts(providers[..i], calls[..i])
      {
        var call := calls[i];
        if call.Raised? {
          StopAtIs(calls, i);
          limiter.ReleaseRequest(requestId);
          return Exception, attempts;
        }
        attempts := attempts + [AttemptOf(providers[i], call)];
        assert attempts == Attempts(providers[..i + 1], calls[..i + 1]);
        var verdict := VerdictOf(call);
        if verdict.Success? {
          StopAtIs(calls, i);
          Settle(requestId, call.body, reserved);
          return Completion(if call.body.Object? then call.body else EMPTY_BODY), attempts;
        }
        if !FailsOver(verdict) {
          StopAtIs(calls, i);
          Settle(requestId, call.body, reserved);
          return Refusal(call.status), attempts;
        }
      }
      StopAtIs(calls, |calls|);
      assert providers[..|calls|] == providers && calls[..|calls|] == calls;
      reply := ExhaustProviders(requestId, calls, attempts, reserved);
    }

    /** One request that is not streamed. `calls` is what each provider does if it is tried. */
    method Route(now: real, requestId: string, tenant: string, reserved: nat, calls: seq<Call>)
        returns (reply: Reply, attempts: seq<Attempt>)
      requires |calls| == |providers|
      modifies limiter.store
      ensures var (rows, outcome) := Step(limiter.cfg, old(limiter.store.rows), Reserve(now, tenant, reserved, requestId), true);
              if outcome.Admitted? then
                && limiter.store.rows == TableAfter(old(limiter.store.rows), now, requestId, tenant, BillOf(calls, reserved))
                && reply == ReplyOf(calls) && attempts == AttemptsMade(providers, calls)
              else
                && limiter.store.rows == rows && attempts == []
                && reply == if outcome.Refused? then Limited(outcome.used, outcome.retryAfter) else Exception
    {
      var outcome := limiter.CheckAndReserve(now, requestId, tenant, reserved);
      match outcome {
        case Refused(used, retryAfter) =>
          return Limited(used, retryAfter), [];
        case Admitted(_) =>
          reply, attempts := Dispatch(requestId, calls, reserved);
          BillsOnlyItsRow(Evict(old(limiter.store.rows), now - limiter.cfg.window),
                          Row(tenant, requestId, reserved, now, Reserved), BillOf(calls, reserved));
        case _ =>
          return Exception, [];
      }
    }

    /** Open a stream on the first provider that does not fail over. */
    method OpenStream(requestId: string, calls: seq<Call>, reserved: nat)
        returns (reply: Reply, attempts: seq<Attempt>)
      requires |calls| == |providers|
      modifies limiter.store
      ensures reply == StreamReplyOf(calls) && attempts == AttemptsMade(providers, calls)
      ensures limiter.store.rows
           == if reply.Streaming? then old(limiter.store.rows)
              else if reply.Refusal? then Billed(old(limiter.store.rows), requestId, Charge(reserved))
              else Billed(old(limiter.store.rows), requestId, BillOf(calls, reserved))
    {
      attempts := [];
      for i := 0 to |calls|
        invariant limiter.store.rows == old(limiter.store.rows)
        invariant forall j | 0 <= j < i :: !Stops(calls[j])
        invariant attempts == Attempts(providers[..i], calls[..i])
      {
        var call := calls[i];
        if call.Raised? {
          StopAtIs(calls, i);
          limiter.ReleaseRequest(requestId);
          return Exception, attempts;
        }
        attempts := attempts + [AttemptOf(providers[i], call)];
        assert attempts == Attempts(providers[..i + 1], calls[..i + 1]);
        var verdict := VerdictOf(call);
        if verdict.Success? {
          StopAtIs(calls, i);
          return Streaming, attempts;
        }
        if !FailsOver(verdict) {
          StopAtIs(calls, i);
          limiter.SettleRequest(requestId, reserved);
          return Refusal(call.status), attempts;
        }
      }
      StopAtIs(calls, |calls|);
      assert providers[..|calls|] == providers && calls[..|calls|] == calls;
      reply := ExhaustProviders(requestId, calls, attempts, reserved);
    }

    /** Pass the chunks on, counting usage, and settle when the stream ends or the client goes away: `relayed`
        is what was passed on by then. */
    method Relay(rt: Tokens.Runtime, requestId: string, relayed: seq<string>, reserved: nat)
      modifies limiter.store
      ensures var total := Tokens.StreamTotal(Tokens.FeedAll(rt, Tokens.EMPTY, relayed));
              limiter.store.rows == Billed(old(limiter.store.rows), requestId,
                                           Charge(if total.Some? then total.value else reserved))
    {
      var collector := new Tokens.StreamUsageCollector(rt);
      for i := 0 to |relayed|
        invariant fresh(collector) && collector.rt == rt
        invariant limiter.store.rows == old(limiter.store.rows)
        invariant Tokens.FeedAll(rt, collector.State(), relayed[i..]) == Tokens.FeedAll(rt, Tokens.EMPTY, relayed)
      {
        assert relayed[i..][0] == relayed[i] && relayed[i..][1..] == relayed[i + 1..];
        collector.FeedChunk(relayed[i]);
      }
      var total := collector.Charge();
      limiter.SettleRequest(requestId, if total.Some? then total.value else reserved);
    }

    /** One streamed request whose relay runs. */
    method RouteStream(rt: Tokens.Runtime, now: real, requestId: string, tenant: string, reserved: nat,
                       calls: seq<Call>, relayed: seq<string>)
        returns (reply: Reply, attempts: seq<Attempt>)
      requires |calls| == |providers|
      modifies limiter.store
      ensures var (rows, outcome) := Step(limiter.cfg, old(limiter.store.rows), Reserve(now, tenant, reserved, requestId), true);
              if outcome.Admitted? then
                && limiter.store.rows == TableAfter(old(limiter.store.rows), now, requestId, tenant,
                                                    StreamBillOf(rt, calls, relayed, reserved))
                && reply == StreamReplyOf(calls) && attempts == AttemptsMade(providers, calls)
              else
                && limiter.store.rows == rows && attempts == []
                && reply == if outcome.Refused? then Limited(outcome.used, outcome.retryAfter) else Exception
    {
      var outcome := limiter.CheckAndReserve(now, requestId, tenant, reserved);
      match outcome {
        case Refused(used, retryAfter) =>
          return Limited(used, retryAfter), [];
        case Admitted(_) =>
          AdmissionAppends(limiter.cfg, old(limiter.store.rows), now, requestId, tenant, reserved);
          StreamBillByReply(rt, calls, relayed, reserved);
          reply, attempts := OpenStream(requestId, calls, reserved);
          if reply.Streaming? {
            Relay(rt, requestId, relayed, reserved);
          }
          BillsOnlyItsRow(Evict(old(limiter.store.rows), now - limiter.cfg.window),
                          Row(tenant, requestId, reserved, now, Reserved),
                          StreamBillOf(rt, calls, relayed, reserved));
        case _ =>
          return Exception, [];
      }
    }
  }
}

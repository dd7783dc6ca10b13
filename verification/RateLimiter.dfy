/** The limiter object over the shared usage table: every method is one transaction, and computes the
    corresponding step on the table's rows. */
module RateLimiters {
  import opened RateLimit
  import opened RateHistory

  /** The usage table of one database. */
  class Store {
    var rows: seq<Row>

    constructor ()
      ensures rows == []
    {
      rows := [];
    }
  }

  lemma {:induction false} TotalSplit(rows: seq<Row>, k: nat)
    requires k <= |rows|
    ensures Total(rows) == Total(rows[..k]) + Total(rows[k..])
    decreases |rows|
  {
    if k == 0 {
      assert rows[0..] == rows;
    } else {
      TotalSplit(rows[1..], k - 1);
      assert rows[..k][1..] == rows[1..][..k - 1] && rows[1..][k - 1..] == rows[k..];
    }
  }

  class RateLimiter {
    const store: Store
    const cfg: Config

    constructor (store: Store, cfg: Config)
      requires cfg.Valid()
      ensures this.store == store && this.cfg == cfg
    {
      this.store, this.cfg := store, cfg;
    }

    method EvictExpired(now: real)
      modifies store
      ensures store.rows == Evict(old(store.rows), now - cfg.window)
    {
      store.rows := Evict(store.rows, now - cfg.window);
    }

    /** Walk the live rows oldest first, adding up what each expiry returns. */
    method RetryTime(tenant: string, now: real, needed: nat) returns (r: real)
      ensures r == RetryAfter(cfg, store.rows, tenant, now, needed)
    {
      var rows := ByTime(Live(store.rows, tenant, now - cfg.window));
      var used := Total(rows);
      var shortfall := used + needed - cfg.limit;
      if shortfall <= 0 {
        return 0.0;
      }
      var freed := 0;
      for i := 0 to |rows|
        invariant freed == Total(rows[..i]) < shortfall
        invariant FirstEnough(rows, 0, shortfall) == FirstEnough(rows[i..], freed, shortfall)
      {
        assert rows[i..][0] == rows[i] && rows[i..][1..] == rows[i + 1..];
        TotalSplit(rows[..i + 1], i);
        assert rows[..i + 1][..i] == rows[..i] && rows[..i + 1][i..] == [rows[i]];
        assert Total([rows[i]]) == rows[i].tokens by { assert |[rows[i]][1..]| == 0; }
        freed := freed + rows[i].tokens;
        if freed >= shortfall {
          return MaxReal(0.0, rows[i].createdAt + cfg.window - now);
        }
      }
      r := cfg.window;
    }

    /** Admit or reject one request; quota is reserved if and only if it is admitted. A request id already in
        the table breaks the unique index, and the whole transaction is rolled back. */
    method CheckAndReserve(now: real, requestId: string, tenant: string, estimate: nat) returns (outcome: Outcome)
      modifies store
      ensures (store.rows, outcome) == Step(cfg, old(store.rows), Reserve(now, tenant, estimate, requestId), true)
    {
      var begun := store.rows;
      EvictExpired(now);
      var used := Used(cfg, store.rows, tenant, now);
      if used + estimate > cfg.limit {
        var wait := RetryTime(tenant, now, estimate);
        return Refused(used, wait);
      }
      if HasRequest(store.rows, requestId) {
        store.rows := begun;
        return Conflict;
      }
      store.rows := store.rows + [Row(tenant, requestId, estimate, now, Reserved)];
      outcome := Admitted(used + estimate);
    }

    method SettleRequest(requestId: string, actual: nat)
      modifies store
      ensures store.rows == SetTokens(old(store.rows), requestId, actual)
      ensures |store.rows| == |old(store.rows)|
      ensures forall i | 0 <= i < |store.rows| ::
                store.rows[i] == if old(store.rows)[i].requestId == requestId
                                 then old(store.rows)[i].(tokens := actual, state := Settled)
                                 else old(store.rows)[i]
    {
      SetTokensKeeps(store.rows, requestId, actual);
      store.rows := SetTokens(store.rows, requestId, actual);
    }

    method ReleaseRequest(requestId: string)
      modifies store
      ensures store.rows == Remove(old(store.rows), requestId)
      ensures forall row :: row in store.rows <==> row in old(store.rows) && row.requestId != requestId
    {
      RemoveKeeps(store.rows, requestId);
      store.rows := Remove(store.rows, requestId);
    }

    method UsageOf(tenant: string, now: real) returns (used: nat)
      ensures Reported(used) == Step(cfg, store.rows, Usage(now, tenant), true).1
      ensures forall estimate: nat, requestId | !HasRequest(Evict(store.rows, now - cfg.window), requestId) ::
                used + estimate <= cfg.limit
                <==> Step(cfg, store.rows, Reserve(now, tenant, estimate, requestId), true).1.Admitted?
    {
      forall estimate: nat, requestId | !HasRequest(Evict(store.rows, now - cfg.window), requestId)
        ensures Used(cfg, store.rows, tenant, now) + estimate <= cfg.limit
                <==> Step(cfg, store.rows, Reserve(now, tenant, estimate, requestId), true).1.Admitted?
      {
        UsageDecidesAdmission(cfg, store.rows, tenant, now, estimate, requestId);
      }
      used := Used(cfg, store.rows, tenant, now);
    }
  }
}

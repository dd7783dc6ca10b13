/** The refund objects: the customer store of one process, and the ledger that outlives it. */
module RefundLedgers {
  import opened Basics
  import opened Refunds

  class CustomerStore {
    var customers: map<string, Customer>
    var refunds: map<string, Refund>

    function State(): Store
      reads this
    {
      Store(customers, refunds)
    }

    constructor (seed: map<string, Customer>)
      ensures State() == Store(seed, map[])
    {
      customers, refunds := seed, map[];
    }

    method GetCustomer(id: string) returns (r: Result<Customer>)
      ensures r.Ok? ==> id in customers && r.value == customers[id]
      ensures r.Err? ==> r.error == CustomerNotFound(id)
                         && forall req: Request, refundId, stamp | req.customerId == id ::
                              Issue(State(), req, refundId, stamp) == (State(), Err(r.error))
    {
      if id !in customers {
        return Err(CustomerNotFound(id));
      }
      r := Ok(customers[id]);
    }

    method IssueRefund(req: Request, refundId: string, stamp: string) returns (r: Result<Payload>)
      modifies this
      ensures (State(), r) == Issue(old(State()), req, refundId, stamp)
    {
      var found := GetCustomer(req.customerId);
      if found.Err? {
        return Err(found.error);
      }
      var customer := found.value;
      if customer.status != "active" {
        return Err(AccountNotActive(req.customerId, customer.status));
      }
      if req.cents > customer.balance {
        return Err(InsufficientBalance(req.customerId, req.cents, customer.balance));
      }
      var refund := Refund(refundId, req.customerId, req.cents, req.reason, stamp);
      refunds := refunds[refundId := refund];
      var remaining := customer.balance - req.cents;
      customers := customers[req.customerId := customer.(balance := remaining)];
      r := Ok(Payload(refund.id, refund.customerId, refund.cents, refund.reason, refund.createdAt, remaining, "issued"));
    }
  }

  class RefundLedger {
    const cfg: Config
    var rows: seq<Record>

    /** Opens the file: `recorded` is what earlier processes left in it. */
    constructor (cfg: Config, recorded: seq<Record>)
      ensures this.cfg == cfg && rows == recorded
    {
      this.cfg := cfg;
      rows := recorded;
    }

    /** Issue the refund, or return the one already issued for this operation. The store's change is not undone
        when the ledger is rolled back. */
    method RunOnce(store: CustomerStore, req: Request, now: real, refundId: string, stamp: string)
        returns (outcome: Outcome)
      modifies this, store
      ensures (rows, store.State(), outcome)
           == Refunds.RunOnce(cfg, old(rows), old(store.State()), req, now, refundId, stamp)
    {
      var key := OperationKey(cfg, req);
      var begun := rows;
      rows := Expire(rows, now - cfg.window);
      var found := Lookup(rows, key);
      if found.Some? {
        return Replayed(found.value);
      }
      var issued := store.IssueRefund(req, refundId, stamp);
      if issued.Err? {
        rows := begun;
        return Refused(issued.error);
      }
      assert !HasKey(rows, key);  // the primary key accepts the insert
      var digest := cfg.fingerprint(req.customerId, req.cents, req.reason);
      rows := rows + [Record(key, req.customerId, digest, issued.value, now)];
      outcome := Issued(issued.value);
    }
  }
}

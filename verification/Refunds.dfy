/** Refunds as functions on values: the customer store, the replay ledger, and one refund request against
    both. Amounts are integer cents. */
module Refunds {
  import opened Basics
  import opened Lines

  datatype Customer = Customer(
    id: string, name: string, email: string, status: string,
    lifetimeSpend: int, balance: int, signedUp: string)

  datatype Refund = Refund(id: string, customerId: string, cents: int, reason: string, createdAt: string)

  /** What the caller of a refund is sent, and what the ledger keeps. */
  datatype Payload = Payload(
    refundId: string, customerId: string, cents: int, reason: string, createdAt: string,
    remaining: int, status: string)

  datatype DomainError =
    | CustomerNotFound(customerId: string)
    | AccountNotActive(customerId: string, status: string)
    | InsufficientBalance(customerId: string, requested: int, balance: int)

  datatype Result<+T> = Ok(value: T) | Err(error: DomainError)

  /** The in-memory fixture: customers and the refunds issued in this process. */
  datatype Store = Store(customers: map<string, Customer>, refunds: map<string, Refund>)

  /** A refund request; an absent or empty key means none was supplied. */
  datatype Request = Request(customerId: string, cents: int, reason: string, suppliedKey: Option<string>)

  /** The balance-moving half. `refundId` and `stamp` are the random id and the clock text. */
  function Issue(store: Store, req: Request, refundId: string, stamp: string): (Store, Result<Payload>) {
    if req.customerId !in store.customers then (store, Err(CustomerNotFound(req.customerId)))
    else
      var customer := store.customers[req.customerId];
      if customer.status != "active" then (store, Err(AccountNotActive(req.customerId, customer.status)))
      else if req.cents > customer.balance then
        (store, Err(InsufficientBalance(req.customerId, req.cents, customer.balance)))
      else
        var remaining := customer.balance - req.cents;
        (Store(store.customers[req.customerId := customer.(balance := remaining)],
               store.refunds[refundId := Refund(refundId, req.customerId, req.cents, req.reason, stamp)]),
         Ok(Payload(refundId, req.customerId, req.cents, req.reason, stamp, remaining, "issued")))
  }

  // ---- The ledger -----------------------------------------------------------------------------

  datatype Record = Record(key: string, customerId: string, fingerprint: string, response: Payload, createdAt: real)

  /** `fingerprint` is the hash of customer, cents and reason. */
  datatype Config = Config(window: real, fingerprint: (string, int, string) -> string) {
    ghost predicate Injective() {
      forall c, n, r, c', n', r' :: fingerprint(c, n, r) == fingerprint(c', n', r') ==> c == c' && n == n' && r == r'
    }
  }

  predicate Supplied(req: Request) {
    req.suppliedKey.Some? && req.suppliedKey.value != ""
  }

  /** The identity of an operation: a supplied key, set apart by customer, or else the fingerprint. */
  function OperationKey(cfg: Config, req: Request): string {
    if Supplied(req) then "key:" + req.customerId + ":" + req.suppliedKey.value
    else "auto:" + cfg.fingerprint(req.customerId, req.cents, req.reason)
  }

  function Expire(ledger: seq<Record>, horizon: real): seq<Record> {
    if |ledger| == 0 then []
    else (if ledger[0].createdAt <= horizon then [] else [ledger[0]]) + Expire(ledger[1..], horizon)
  }

  function Lookup(ledger: seq<Record>, key: string): (r: Option<Payload>)
    ensures r.Some? ==> exists i :: 0 <= i < |ledger| && ledger[i].key == key && ledger[i].response == r.value
    ensures r.None? ==> forall i | 0 <= i < |ledger| :: ledger[i].key != key
  {
    if |ledger| == 0 then None
    else if ledger[0].key == key then Some(ledger[0].response)
    else
      var r := Lookup(ledger[1..], key);
      assert forall i | 1 <= i < |ledger| :: ledger[i] == ledger[1..][i - 1];
      r
  }

  datatype Outcome =
    | Issued(payload: Payload)
    | Replayed(payload: Payload)
    | Refused(error: DomainError)
    | KeyConflict             // the primary key refusing the insert

  predicate HasKey(ledger: seq<Record>, key: string) {
    exists i :: 0 <= i < |ledger| && ledger[i].key == key
  }

  /** One request, in one transaction: an exception rolls the ledger back, and not the store. */
  function RunOnce(cfg: Config, ledger: seq<Record>, store: Store, req: Request, now: real,
                   refundId: string, stamp: string): (seq<Record>, Store, Outcome)
  {
    var key := OperationKey(cfg, req);
    var kept := Expire(ledger, now - cfg.window);
    match Lookup(kept, key)
    case Some(payload) => (kept, store, Replayed(payload))
    case None =>
      match Issue(store, req, refundId, stamp)
      case (same, Err(error)) => (ledger, same, Refused(error))
      case (moved, Ok(payload)) =>
        if HasKey(kept, key) then (ledger, moved, KeyConflict)
        else
          var record := Record(key, req.customerId, cfg.fingerprint(req.customerId, req.cents, req.reason), payload, now);
          (kept + [record], moved, Issued(payload))
  }

  // ---- Operation keys -------------------------------------------------------------------------

  predicate SameOperation(a: Request, b: Request) {
    a.customerId == b.customerId
    && if Supplied(a) then Supplied(b) && a.suppliedKey == b.suppliedKey
       else !Supplied(b) && a.cents == b.cents && a.reason == b.reason
  }

  lemma FirstColon(a: string, x: string)
    requires ':' !in a
    ensures Find(a + ":" + x, ':', 0) == Some(|a|)
  {
    var s := a + ":" + x;
    assert s[|a|] == ':';
    assert forall i | 0 <= i < |a| :: s[i] == a[i];
  }

  lemma ColonSplits(a: string, x: string, b: string, y: string)
    requires ':' !in a && ':' !in b
    requires a + ":" + x == b + ":" + y
    ensures a == b && x == y
  {
    FirstColon(a, x);
    FirstColon(b, y);
    var s, t := a + ":" + x, b + ":" + y;
    assert s[..|a|] == a && t[..|b|] == b;
    assert s[|a| + 1..] == x && t[|b| + 1..] == y;
  }

  lemma PrefixCancels(p: string, x: string, y: string)
    requires p + x == p + y
    ensures x == y
  {
    assert (p + x)[|p|..] == x && (p + y)[|p|..] == y;
  }

  /** For customer ids without a colon, as the request schema demands, two requests share an operation key
      exactly when they are the same operation; in particular they are for the same customer. */
  lemma KeyIdentifies(cfg: Config, a: Request, b: Request)
    requires cfg.Injective() && ':' !in a.customerId && ':' !in b.customerId
    ensures OperationKey(cfg, a) == OperationKey(cfg, b) <==> SameOperation(a, b)
  {
    var ka, kb := OperationKey(cfg, a), OperationKey(cfg, b);
    if Supplied(a) != Supplied(b) {
      assert ka[0] != kb[0];
    } else if ka == kb {
      if Supplied(a) {
        var x, y := a.customerId + ":" + a.suppliedKey.value, b.customerId + ":" + b.suppliedKey.value;
        assert ka == "key:" + x && kb == "key:" + y;
        PrefixCancels("key:", x, y);
        ColonSplits(a.customerId, a.suppliedKey.value, b.customerId, b.suppliedKey.value);
      } else {
        PrefixCancels("auto:", cfg.fingerprint(a.customerId, a.cents, a.reason),
                      cfg.fingerprint(b.customerId, b.cents, b.reason));
      }
    }
  }

  /** An empty key is no key: the operation is then known by its fingerprint. */
  lemma EmptyKeyIsNone(cfg: Config, req: Request)
    requires req.suppliedKey in {None, Some("")}
    ensures OperationKey(cfg, req) == "auto:" + cfg.fingerprint(req.customerId, req.cents, req.reason)
  {
  }

  /** Without that demand two customers could meet in one key. */
  lemma KeysCanCollide(cfg: Config) returns (a: Request, b: Request)
    ensures a.customerId != b.customerId && OperationKey(cfg, a) == OperationKey(cfg, b)
  {
    a := Request("A", 1, "", Some("B:C"));
    b := Request("A:B", 1, "", Some("C"));
    assert OperationKey(cfg, a) == "key:A:B:C" == OperationKey(cfg, b);
  }
}

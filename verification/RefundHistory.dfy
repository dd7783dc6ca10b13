/** Whole histories of refund requests and restarts: a refund is paid at most once per operation and replay
    window, and money is conserved in every process. */
module RefundHistory {
  import opened Basics
  import opened Refunds

  /** `Restart` empties the in-memory store back to its seed; the ledger is a file and survives. */
  datatype Event =
    | Ask(req: Request, now: real, refundId: string, stamp: string)
    | Restart

  datatype Entry = Entry(req: Request, at: real, outcome: Outcome)

  /** `log` records every request answered so far; `last` is the last clock reading. */
  datatype System = System(ledger: seq<Record>, store: Store, log: seq<Entry>, last: real)

  function Fresh(seed: map<string, Customer>): Store {
    Store(seed, map[])
  }

  /** One event; clock readings do not go back, and a refund id is new to the process. */
  predicate Possible(s: System, e: Event) {
    e.Ask? ==> s.last <= e.now && e.refundId !in s.store.refunds
  }

  function Next(cfg: Config, seed: map<string, Customer>, s: System, e: Event): System {
    match e
    case Restart => s.(store := Fresh(seed))
    case Ask(req, now, refundId, stamp) =>
      var (ledger, store, outcome) := RunOnce(cfg, s.ledger, s.store, req, now, refundId, stamp);
      System(ledger, store, s.log + [Entry(req, now, outcome)], now)
  }

  ghost predicate Reaches(cfg: Config, seed: map<string, Customer>, s: System, events: seq<Event>, t: System)
    decreases |events|
  {
    if |events| == 0 then s == t
    else Possible(s, events[0]) && Reaches(cfg, seed, Next(cfg, seed, s, events[0]), events[1..], t)
  }

  // ---- At most once ---------------------------------------------------------------------------

  /** A record is the trace of an issue that is in the log. */
  ghost predicate Traces(cfg: Config, entry: Entry, record: Record) {
    && entry.outcome == Issued(record.response)
    && OperationKey(cfg, entry.req) == record.key
    && entry.at == record.createdAt
    && record.response.customerId == entry.req.customerId == record.customerId
  }

  ghost predicate Traced(cfg: Config, log: seq<Entry>, record: Record) {
    exists i :: 0 <= i < |log| && Traces(cfg, log[i], record)
  }

  ghost predicate AllTraced(cfg: Config, log: seq<Entry>, ledger: seq<Record>) {
    forall record | record in ledger :: Traced(cfg, log, record)
  }

  ghost predicate Remembered(cfg: Config, ledger: seq<Record>, entry: Entry) {
    exists k :: 0 <= k < |ledger| && Traces(cfg, entry, ledger[k])
  }

  /** Every issue is either in the ledger still, or a replay window old. */
  ghost predicate NothingForgotten(cfg: Config, s: System) {
    forall i | 0 <= i < |s.log| && s.log[i].outcome.Issued? ::
      Remembered(cfg, s.ledger, s.log[i]) || s.log[i].at + cfg.window <= s.last
  }

  ghost predicate IssuedWithin(cfg: Config, entry: Entry, req: Request, now: real) {
    && entry.outcome.Issued?
    && OperationKey(cfg, entry.req) == OperationKey(cfg, req)
    && now - entry.at < cfg.window
  }

  /** A request at `now` finds its operation issued less than a window ago. */
  ghost predicate Recent(cfg: Config, log: seq<Entry>, req: Request, now: real) {
    exists i :: 0 <= i < |log| && IssuedWithin(cfg, log[i], req, now)
  }

  ghost predicate Repeats(cfg: Config, before: seq<Entry>, req: Request, now: real, payload: Payload) {
    exists i :: 0 <= i < |before| && IssuedWithin(cfg, before[i], req, now) && before[i].outcome == Issued(payload)
  }

  /** What an entry of the log owes to the entries before it: it is a replay exactly when its operation was
      issued less than a window before, and then it returns the payload of that issue. */
  ghost predicate Answered(cfg: Config, before: seq<Entry>, entry: Entry) {
    && (entry.outcome.Replayed? <==> Recent(cfg, before, entry.req, entry.at))
    && (entry.outcome.Replayed? ==> Repeats(cfg, before, entry.req, entry.at, entry.outcome.payload))
    && (entry.outcome.Issued? ==> entry.outcome.payload.customerId == entry.req.customerId)
    && !entry.outcome.KeyConflict?
  }

  ghost predicate AllAnswered(cfg: Config, log: seq<Entry>) {
    forall j | 0 <= j < |log| :: Answered(cfg, log[..j], log[j])
  }

  ghost predicate Inv(cfg: Config, s: System) {
    AllTraced(cfg, s.log, s.ledger) && NothingForgotten(cfg, s) && AllAnswered(cfg, s.log)
  }

  // ---- What every request keeps ---------------------------------------------------------------

  lemma {:induction false} ExpireKeeps(ledger: seq<Record>, horizon: real)
    ensures forall record :: record in Expire(ledger, horizon) <==> record in ledger && record.createdAt > horizon
  {
    if |ledger| > 0 {
      ExpireKeeps(ledger[1..], horizon);
      assert ledger == [ledger[0]] + ledger[1..];
    }
  }

  /** A record inside the window stands for an issue inside the window. */
  lemma RecordIsRecent(cfg: Config, log: seq<Entry>, record: Record, req: Request, now: real)
    requires Traced(cfg, log, record) && record.key == OperationKey(cfg, req) && record.createdAt > now - cfg.window
    ensures Repeats(cfg, log, req, now, record.response) && Recent(cfg, log, req, now)
  {
    var i :| 0 <= i < |log| && Traces(cfg, log[i], record);
    assert IssuedWithin(cfg, log[i], req, now);
  }

  lemma LookupHit(ledger: seq<Record>, horizon: real, key: string) returns (record: Record)
    requires Lookup(Expire(ledger, horizon), key).Some?
    ensures record in ledger && record.createdAt > horizon && record.key == key
    ensures record.response == Lookup(Expire(ledger, horizon), key).value
  {
    var kept := Expire(ledger, horizon);
    var k :| 0 <= k < |kept| && kept[k].key == key && kept[k].response == Lookup(kept, key).value;
    ExpireKeeps(ledger, horizon);
    record := kept[k];
  }

  lemma LookupFinds(ledger: seq<Record>, horizon: real, record: Record)
    requires record in ledger && record.createdAt > horizon
    ensures Lookup(Expire(ledger, horizon), record.key).Some?
  {
    ExpireKeeps(ledger, horizon);
    assert record in Expire(ledger, horizon);
  }

  /** The record of an issue that is not a window old. */
  lemma RecordOf(cfg: Config, s: System, i: nat) returns (record: Record)
    requires NothingForgotten(cfg, s) && i < |s.log| && s.log[i].outcome.Issued? && s.log[i].at + cfg.window > s.last
    ensures record in s.ledger && Traces(cfg, s.log[i], record)
  {
    assert Remembered(cfg, s.ledger, s.log[i]);
    var k :| 0 <= k < |s.ledger| && Traces(cfg, s.log[i], s.ledger[k]);
    record := s.ledger[k];
  }

  /** An issue inside the window is found. */
  lemma RecentIsFound(cfg: Config, s: System, req: Request, now: real, key: string)
    requires NothingForgotten(cfg, s) && s.last <= now && Recent(cfg, s.log, req, now)
    requires key == OperationKey(cfg, req)
    ensures Lookup(Expire(s.ledger, now - cfg.window), key).Some?
  {
    var i :| 0 <= i < |s.log| && IssuedWithin(cfg, s.log[i], req, now);
    var record := RecordOf(cfg, s, i);
    TraceIsFound(cfg, s.ledger, s.log[i], record, req, now);
  }

  lemma TraceIsFound(cfg: Config, ledger: seq<Record>, entry: Entry, record: Record, req: Request, now: real)
    requires record in ledger && Traces(cfg, entry, record) && IssuedWithin(cfg, entry, req, now)
    ensures Lookup(Expire(ledger, now - cfg.window), OperationKey(cfg, req)).Some?
  {
    LookupFinds(ledger, now - cfg.window, record);
  }

  /** A request is replayed exactly when its lookup finds a record, and is never refused by the primary key. */
  lemma OutcomeOf(cfg: Config, s: System, req: Request, now: real, refundId: string, stamp: string)
      returns (key: string, found: Option<Payload>, outcome: Outcome)
    ensures key == OperationKey(cfg, req) && found == Lookup(Expire(s.ledger, now - cfg.window), key)
    ensures outcome == RunOnce(cfg, s.ledger, s.store, req, now, refundId, stamp).2
    ensures outcome.Replayed? <==> found.Some?
    ensures outcome.Replayed? ==> outcome.payload == found.value
    ensures outcome.Issued? ==> outcome.payload.customerId == req.customerId
    ensures !outcome.KeyConflict?
  {
    key := OperationKey(cfg, req);
    found := Lookup(Expire(s.ledger, now - cfg.window), key);
    outcome := RunOnce(cfg, s.ledger, s.store, req, now, refundId, stamp).2;
  }

  /** The answer to one request is right with respect to all answers before it. */
  lemma AnswerIsRight(cfg: Config, s: System, req: Request, now: real, refundId: string, stamp: string)
      returns (entry: Entry)
    requires AllTraced(cfg, s.log, s.ledger) && NothingForgotten(cfg, s) && s.last <= now
    ensures entry == Entry(req, now, RunOnce(cfg, s.ledger, s.store, req, now, refundId, stamp).2)
    ensures Answered(cfg, s.log, entry)
  {
    var key, found, outcome := OutcomeOf(cfg, s, req, now, refundId, stamp);
    entry := Entry(req, now, outcome);
    if found.Some? {
      var record := LookupHit(s.ledger, now - cfg.window, key);
      RecordIsRecent(cfg, s.log, record, req, now);
    } else if Recent(cfg, s.log, req, now) {
      RecentIsFound(cfg, s, req, now, key);
    }
  }

  lemma TracedGrows(cfg: Config, log: seq<Entry>, entry: Entry, record: Record)
    requires Traced(cfg, log, record) || Traces(cfg, entry, record)
    ensures Traced(cfg, log + [entry], record)
  {
    var all := log + [entry];
    if Traced(cfg, log, record) {
      var i :| 0 <= i < |log| && Traces(cfg, log[i], record);
      assert all[i] == log[i];
    } else {
      assert all[|log|] == entry;
    }
  }

  /** The ledger after a request is the old one, possibly expired, and for an issue one more record. */
  lemma LedgerAfter(cfg: Config, s: System, req: Request, now: real, refundId: string, stamp: string)
      returns (entry: Entry, added: Option<Record>)
    ensures var (ledger, _, outcome) := RunOnce(cfg, s.ledger, s.store, req, now, refundId, stamp);
            && entry == Entry(req, now, outcome)
            && (outcome.Issued? <==> added.Some?)
            && (added.Some? ==> Traces(cfg, entry, added.value))
            && (forall record :: record in ledger ==> record in s.ledger || added == Some(record))
            && (forall record | record in s.ledger && record.createdAt > now - cfg.window :: record in ledger)
            && (added.Some? ==> added.value in ledger)
  {
    var (ledger, _, outcome) := RunOnce(cfg, s.ledger, s.store, req, now, refundId, stamp);
    ExpireKeeps(s.ledger, now - cfg.window);
    entry, added := Entry(req, now, outcome), None;
    if outcome.Issued? {
      added := Some(ledger[|ledger| - 1]);
    }
  }

  lemma AskKeepsTraces(cfg: Config, seed: map<string, Customer>, s: System, e: Event)
    requires AllTraced(cfg, s.log, s.ledger) && e.Ask?
    ensures var t := Next(cfg, seed, s, e); AllTraced(cfg, t.log, t.ledger)
  {
    var t := Next(cfg, seed, s, e);
    var entry, added := LedgerAfter(cfg, s, e.req, e.now, e.refundId, e.stamp);
    forall record | record in t.ledger
      ensures Traced(cfg, t.log, record)
    {
      assert record in s.ledger ==> Traced(cfg, s.log, record);
      TracedGrows(cfg, s.log, entry, record);
    }
  }

  lemma Recalls(cfg: Config, ledger: seq<Record>, entry: Entry, record: Record)
    requires record in ledger && Traces(cfg, entry, record)
    ensures Remembered(cfg, ledger, entry)
  {
    var k :| 0 <= k < |ledger| && ledger[k] == record;
  }

  lemma AskForgetsNothing(cfg: Config, seed: map<string, Customer>, s: System, e: Event)
    requires NothingForgotten(cfg, s) && e.Ask? && s.last <= e.now
    ensures NothingForgotten(cfg, Next(cfg, seed, s, e))
  {
    var t := Next(cfg, seed, s, e);
    var entry, added := LedgerAfter(cfg, s, e.req, e.now, e.refundId, e.stamp);
    forall i | 0 <= i < |t.log| && t.log[i].outcome.Issued?
      ensures Remembered(cfg, t.ledger, t.log[i]) || t.log[i].at + cfg.window <= t.last
    {
      if i == |s.log| {
        Recalls(cfg, t.ledger, entry, added.value);
      } else {
        assert t.log[i] == s.log[i];
        if Remembered(cfg, s.ledger, s.log[i]) && s.log[i].at + cfg.window > e.now {
          var k :| 0 <= k < |s.ledger| && Traces(cfg, s.log[i], s.ledger[k]);
          Recalls(cfg, t.ledger, s.log[i], s.ledger[k]);
        }
      }
    }
  }

  lemma AllAnsweredAppend(cfg: Config, log: seq<Entry>, entry: Entry)
    requires AllAnswered(cfg, log) && Answered(cfg, log, entry)
    ensures AllAnswered(cfg, log + [entry])
  {
    var all := log + [entry];
    forall j | 0 <= j < |all|
      ensures Answered(cfg, all[..j], all[j])
    {
      assert all[..j] == log[..j];
      assert log[..|log|] == log;
    }
  }

  lemma NextKeeps(cfg: Config, seed: map<string, Customer>, s: System, e: Event)
    requires Inv(cfg, s) && Possible(s, e)
    ensures Inv(cfg, Next(cfg, seed, s, e))
  {
    if e.Ask? {
      AskKeepsTraces(cfg, seed, s, e);
      AskForgetsNothing(cfg, seed, s, e);
      var entry := AnswerIsRight(cfg, s, e.req, e.now, e.refundId, e.stamp);
      AllAnsweredAppend(cfg, s.log, entry);
    }
  }

  lemma {:induction false} ReachesKeeps(cfg: Config, seed: map<string, Customer>, s: System, events: seq<Event>, t: System)
    requires Inv(cfg, s) && Reaches(cfg, seed, s, events, t)
    ensures Inv(cfg, t)
    decreases |events|
  {
    if |events| > 0 {
      NextKeeps(cfg, seed, s, events[0]);
      ReachesKeeps(cfg, seed, Next(cfg, seed, s, events[0]), events[1..], t);
    }
  }

  function Start(seed: map<string, Customer>, from: real): System {
    System([], Fresh(seed), [], from)
  }

  /** Main result: over any run of requests, refusals, expiries and restarts, a request is replayed exactly when
      its operation was issued less than a window before, with the payload of that issue; and the insert never
      hits the primary key. */
  lemma ReplayedExactlyWhenRecent(cfg: Config, seed: map<string, Customer>, from: real, events: seq<Event>, t: System)
    requires Reaches(cfg, seed, Start(seed, from), events, t)
    ensures forall j | 0 <= j < |t.log| :: Answered(cfg, t.log[..j], t.log[j])
  {
    ReachesKeeps(cfg, seed, Start(seed, from), events, t);
  }

  /** Main result: two refunds issued for one operation key are at least a replay window apart. */
  lemma PaidAtMostOnce(cfg: Config, seed: map<string, Customer>, from: real, events: seq<Event>, t: System, i: nat, j: nat)
    requires Reaches(cfg, seed, Start(seed, from), events, t)
    requires i < j < |t.log| && t.log[i].outcome.Issued? && t.log[j].outcome.Issued?
    requires OperationKey(cfg, t.log[i].req) == OperationKey(cfg, t.log[j].req)
    ensures t.log[j].at - t.log[i].at >= cfg.window
  {
    ReplayedExactlyWhenRecent(cfg, seed, from, events, t);
    assert Answered(cfg, t.log[..j], t.log[j]) && t.log[..j][i] == t.log[i];
    if t.log[j].at - t.log[i].at < cfg.window {
      assert IssuedWithin(cfg, t.log[..j][i], t.log[j].req, t.log[j].at);
    }
  }

  /** Nobody reads another customer's refund: a replay was issued for the customer who asks. */
  lemma ReplayIsYours(cfg: Config, seed: map<string, Customer>, from: real, events: seq<Event>, t: System, j: nat)
    requires cfg.Injective() && Reaches(cfg, seed, Start(seed, from), events, t)
    requires forall k | 0 <= k < |t.log| :: ':' !in t.log[k].req.customerId
    requires j < |t.log| && t.log[j].outcome.Replayed?
    ensures t.log[j].outcome.payload.customerId == t.log[j].req.customerId
    ensures exists i :: 0 <= i < j && t.log[i].outcome == Issued(t.log[j].outcome.payload)
                        && SameOperation(t.log[i].req, t.log[j].req)
  {
    ReplayedExactlyWhenRecent(cfg, seed, from, events, t);
    assert Answered(cfg, t.log[..j], t.log[j]);
    var i :| 0 <= i < |t.log[..j]| && IssuedWithin(cfg, t.log[..j][i], t.log[j].req, t.log[j].at)
             && t.log[..j][i].outcome == Issued(t.log[j].outcome.payload);
    assert t.log[..j][i] == t.log[i] && Answered(cfg, t.log[..i], t.log[i]);
    KeyIdentifies(cfg, t.log[i].req, t.log[j].req);
  }

  // ---- Money ----------------------------------------------------------------------------------

  ghost function Pick(refunds: map<string, Refund>): (id: string)
    requires |refunds| > 0
    ensures id in refunds
  {
    var id :| id in refunds; id
  }

  /** All refunds recorded for a customer, in cents. */
  ghost function Refunded(refunds: map<string, Refund>, customerId: string): int
    decreases |refunds|
  {
    if |refunds| == 0 then 0
    else
      var id := Pick(refunds);
      CentsFor(refunds[id], customerId) + Refunded(refunds - {id}, customerId)
  }

  function CentsFor(refund: Refund, customerId: string): int {
    if refund.customerId == customerId then refund.cents else 0
  }

  lemma RemoveSize(refunds: map<string, Refund>, id: string)
    requires id in refunds
    ensures |refunds - {id}| == |refunds| - 1
  {
    assert (refunds - {id}).Keys == refunds.Keys - {id};
    assert |refunds| == |refunds.Keys| && |refunds - {id}| == |(refunds - {id}).Keys|;
  }

  /** The sum does not depend on the order in which it is taken. */
  lemma {:induction false} RefundedSplit(refunds: map<string, Refund>, customerId: string, id: string)
    requires id in refunds
    ensures Refunded(refunds, customerId) == CentsFor(refunds[id], customerId) + Refunded(refunds - {id}, customerId)
    decreases |refunds|
  {
    RemoveSize(refunds, id);
    var first := Pick(refunds);
    if first != id {
      RemoveSize(refunds, first);
      RefundedSplit(refunds - {first}, customerId, id);
      RefundedSplit(refunds - {id}, customerId, first);
      assert refunds - {first} - {id} == refunds - {id} - {first};
    }
  }

  lemma RefundedInsert(refunds: map<string, Refund>, customerId: string, id: string, refund: Refund)
    requires id !in refunds
    ensures Refunded(refunds[id := refund], customerId) == Refunded(refunds, customerId) + CentsFor(refund, customerId)
  {
    RefundedSplit(refunds[id := refund], customerId, id);
    assert refunds[id := refund] - {id} == refunds;
  }

  /** One customer's account balances with that customer's refunds, and is otherwise as it was. */
  ghost predicate AccountOk(seed: map<string, Customer>, store: Store, id: string)
    requires id in seed && id in store.customers
  {
    && store.customers[id] == seed[id].(balance := seed[id].balance - Refunded(store.refunds, id))
    && (seed[id].balance >= 0 ==> store.customers[id].balance >= 0)
  }

  ghost predicate Conserved(seed: map<string, Customer>, store: Store) {
    && store.customers.Keys == seed.Keys
    && forall id | id in seed :: AccountOk(seed, store, id)
  }

  lemma IssueConserves(seed: map<string, Customer>, store: Store, req: Request, refundId: string, stamp: string)
    requires Conserved(seed, store) && refundId !in store.refunds
    ensures Conserved(seed, Issue(store, req, refundId, stamp).0)
  {
    var (moved, result) := Issue(store, req, refundId, stamp);
    if result.Ok? {
      forall id | id in seed
        ensures AccountOk(seed, moved, id)
      {
        assert AccountOk(seed, store, id);
        RefundedInsert(store.refunds, id, refundId, moved.refunds[refundId]);
      }
    }
  }

  lemma NextConserves(cfg: Config, seed: map<string, Customer>, s: System, e: Event)
    requires Conserved(seed, s.store) && Possible(s, e)
    ensures Conserved(seed, Next(cfg, seed, s, e).store)
  {
    match e
    case Restart => FreshConserved(seed);
    case Ask(req, now, refundId, stamp) => IssueConserves(seed, s.store, req, refundId, stamp);
  }

  lemma FreshConserved(seed: map<string, Customer>)
    ensures Conserved(seed, Fresh(seed))
  {
    forall id | id in seed
      ensures AccountOk(seed, Fresh(seed), id)
    {
      assert Refunded(map[], id) == 0;
    }
  }

  /** Main result: in every process, whatever was asked, each customer's balance is its seed balance less the
      refunds recorded for that customer, it never goes below zero, and nothing else about a customer changes. */
  lemma {:induction false} MoneyIsConserved(cfg: Config, seed: map<string, Customer>, s: System, events: seq<Event>, t: System)
    requires Conserved(seed, s.store) && Reaches(cfg, seed, s, events, t)
    ensures Conserved(seed, t.store)
    decreases |events|
  {
    if |events| > 0 {
      NextConserves(cfg, seed, s, events[0]);
      MoneyIsConserved(cfg, seed, Next(cfg, seed, s, events[0]), events[1..], t);
    }
  }

  /** The customers of a process are those of its seed, whatever was asked. */
  lemma CustomersStay(cfg: Config, seed: map<string, Customer>, from: real, events: seq<Event>, t: System, id: string)
    requires Reaches(cfg, seed, Start(seed, from), events, t)
    ensures id in t.store.customers <==> id in seed
  {
    FreshConserved(seed);
    MoneyIsConserved(cfg, seed, Start(seed, from), events, t);
    assert t.store.customers.Keys == seed.Keys;
  }

  /** Money moves exactly at an issue, and then by the amount asked, within the balance of an active account. */
  lemma OnlyIssuesMoveMoney(cfg: Config, ledger: seq<Record>, store: Store, req: Request, now: real,
                            refundId: string, stamp: string)
    requires refundId !in store.refunds
    ensures var (_, after, outcome) := RunOnce(cfg, ledger, store, req, now, refundId, stamp);
            && (outcome.Issued? <==> after != store)
            && (outcome.Issued? ==>
                  && req.customerId in store.customers && store.customers[req.customerId].status == "active"
                  && outcome.payload.remaining == store.customers[req.customerId].balance - req.cents >= 0
                  && after.customers[req.customerId].balance == outcome.payload.remaining
                  && outcome.payload.refundId == refundId && refundId in after.refunds)
  {
  }

  // ---- What is due ----------------------------------------------------------------------------

  /** What a customer may still be refunded in this process. */
  ghost function Refundable(seed: map<string, Customer>, store: Store, id: string): int
    requires id in seed
  {
    seed[id].balance - Refunded(store.refunds, id)
  }

  /** The answer owed to a request that is no replay, from the seed and the refunds recorded since. */
  ghost predicate OwedAnswer(seed: map<string, Customer>, store: Store, req: Request, refundId: string, stamp: string, outcome: Outcome) {
    if req.customerId !in seed then outcome == Refused(CustomerNotFound(req.customerId))
    else if seed[req.customerId].status != "active" then
      outcome == Refused(AccountNotActive(req.customerId, seed[req.customerId].status))
    else
      var refundable := Refundable(seed, store, req.customerId);
      if req.cents <= refundable then
        outcome == Issued(Payload(refundId, req.customerId, req.cents, req.reason, stamp, refundable - req.cents, "issued"))
      else outcome == Refused(InsufficientBalance(req.customerId, req.cents, refundable))
  }

  lemma IssueIsOwed(seed: map<string, Customer>, store: Store, req: Request, refundId: string, stamp: string)
    requires Conserved(seed, store)
    ensures var (after, result) := Issue(store, req, refundId, stamp);
            && OwedAnswer(seed, store, req, refundId, stamp,
                          match result case Ok(payload) => Issued(payload) case Err(error) => Refused(error))
            && (result.Err? ==> after == store)
            && (result.Ok? ==> after.refunds == store.refunds[refundId := Refund(refundId, req.customerId, req.cents, req.reason, stamp)])
  {
    if req.customerId in seed {
      assert AccountOk(seed, store, req.customerId);
    }
  }

  /** Main result: at every moment of a run, a request whose operation was issued less than a window before is
      replayed; any other is issued exactly if its customer is known and active and the amount is covered by the
      seed balance less the refunds recorded in this process, the whole of it included, and it is refused with the
      first of these that fails. The store gains exactly the refund that is issued. */
  lemma DueIsIssued(cfg: Config, seed: map<string, Customer>, from: real, events: seq<Event>, s: System, e: Event)
    requires Reaches(cfg, seed, Start(seed, from), events, s) && e.Ask? && Possible(s, e)
    ensures var t := Next(cfg, seed, s, e);
            var outcome := t.log[|s.log|].outcome;
            if Recent(cfg, s.log, e.req, e.now) then outcome.Replayed? && t.store == s.store
            else
              && OwedAnswer(seed, s.store, e.req, e.refundId, e.stamp, outcome)
              && t.store.refunds == if outcome.Issued?
                                    then s.store.refunds[e.refundId := Refund(e.refundId, e.req.customerId, e.req.cents, e.req.reason, e.stamp)]
                                    else s.store.refunds
  {
    ReachesKeeps(cfg, seed, Start(seed, from), events, s);
    FreshConserved(seed);
    MoneyIsConserved(cfg, seed, Start(seed, from), events, s);
    var entry := AnswerIsRight(cfg, s, e.req, e.now, e.refundId, e.stamp);
    IssueIsOwed(seed, s.store, e.req, e.refundId, e.stamp);
  }

  /** What the ledger holds after a request: unless it is refused, which leaves the ledger as it was, the records
      younger than the window, and for an issue its own record, under its key, with its fingerprint and its time. */
  lemma LedgerExactly(cfg: Config, seed: map<string, Customer>, s: System, e: Event)
    requires e.Ask?
    ensures var t := Next(cfg, seed, s, e);
            var outcome := t.log[|s.log|].outcome;
            && (outcome.Refused? ==> t.ledger == s.ledger)
            && (outcome.Issued? || outcome.Replayed? ==>
                  forall record :: record in t.ledger <==>
                    || (record in s.ledger && record.createdAt > e.now - cfg.window)
                    || (outcome.Issued? && record == IssueRecord(cfg, e.req, outcome.payload, e.now)))
  {
    ExpireKeeps(s.ledger, e.now - cfg.window);
  }

  function IssueRecord(cfg: Config, req: Request, payload: Payload, now: real): Record {
    Record(OperationKey(cfg, req), req.customerId, cfg.fingerprint(req.customerId, req.cents, req.reason), payload, now)
  }
}

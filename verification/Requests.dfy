/** Concurrent routed requests over one usage table: their provider calls and their transactions interleave in
    any order, and any of them can be cut short. The table always balances with the requests' own books. */
module Requests {
  import opened Basics
  import opened RateLimit
  import opened RateHistory
  import opened Routing

  /** Closing: the settling transaction has committed, but the request has not been told yet. A request is
      aborted while in flight, or undone while closing. */
  datatype Phase = InFlight | Closing | Finished | Aborted | Undone

  /** `closings` lists the bills the request has applied to the table. */
  datatype Request = Request(
    id: string,
    tenant: string,
    estimate: nat,
    admittedAt: real,
    calls: seq<Call>,
    phase: Phase,
    closings: seq<Bill>)

  /** `requests` lists the admitted requests in order of admission; `last` is the last clock reading. */
  datatype System = System(requests: seq<Request>, rows: seq<Row>, last: real)

  datatype Action =
    | Admit(now: real, id: string, tenant: string, estimate: nat)
    | Try(r: nat, call: Call)     // one more provider called
    | Close(r: nat)               // settle or release, as the calls made so far demand
    | Return(r: nat)
    | Abort(r: nat)               // an exception or a cancellation: release, whatever has happened before

  predicate KnownId(requests: seq<Request>, id: string) {
    exists r :: 0 <= r < |requests| && requests[r].id == id
  }

  predicate Live(s: System, r: nat) {
    r < |s.requests| && s.requests[r].phase in {InFlight, Closing}
  }

  /** The search is over: a call stopped it, or every provider was tried. */
  predicate SearchOver(providers: nat, calls: seq<Call>) {
    StopAt(calls) < |calls| || |calls| >= providers
  }

  function Update(s: System, r: nat, request: Request): System
    requires r < |s.requests|
  {
    s.(requests := s.requests[r := request])
  }

  function Billing(q: Request, bill: Bill, phase: Phase): Request {
    q.(phase := phase, closings := q.closings + [bill])
  }

  /** Apply a bill for request `r`, which moves on to `phase`. */
  function Apply(s: System, r: nat, bill: Bill, phase: Phase): System
    requires r < |s.requests|
  {
    Update(s, r, Billing(s.requests[r], bill, phase)).(rows := Billed(s.rows, s.requests[r].id, bill))
  }

  function Admitted(cfg: Config, s: System, a: Action): System
    requires a.Admit?
  {
    var (rows, outcome) := Step(cfg, s.rows, Reserve(a.now, a.tenant, a.estimate, a.id), true);
    var request := Request(a.id, a.tenant, a.estimate, a.now, [], InFlight, []);
    System(if outcome.Admitted? then s.requests + [request] else s.requests, rows, a.now)
  }

  /** One action, or nothing if it cannot happen now. Clock readings do not go back, and ids are fresh. */
  ghost function Act(cfg: Config, providers: nat, s: System, a: Action): Option<System> {
    match a
    case Admit(now, id, _, _) =>
      if s.last <= now && !KnownId(s.requests, id) then Some(Admitted(cfg, s, a)) else None
    case Try(r, call) =>
      if Live(s, r) && s.requests[r].phase.InFlight? && !SearchOver(providers, s.requests[r].calls)
      then Some(Update(s, r, s.requests[r].(calls := s.requests[r].calls + [call]))) else None
    case Close(r) =>
      if Live(s, r) && s.requests[r].phase.InFlight? && SearchOver(providers, s.requests[r].calls)
      then Some(Apply(s, r, BillOf(s.requests[r].calls, s.requests[r].estimate), Closing)) else None
    case Return(r) =>
      if Live(s, r) && s.requests[r].phase.Closing?
      then Some(Update(s, r, s.requests[r].(phase := Finished))) else None
    case Abort(r) =>
      if Live(s, r) then Some(Apply(s, r, Free, if s.requests[r].phase.InFlight? then Aborted else Undone)) else None
  }

  ghost predicate Reaches(cfg: Config, providers: nat, s: System, actions: seq<Action>, t: System)
    decreases |actions|
  {
    if |actions| == 0 then s == t
    else
      var next := Act(cfg, providers, s, actions[0]);
      next.Some? && Reaches(cfg, providers, next.value, actions[1..], t)
  }

  // ---- The books ------------------------------------------------------------------------------

  /** The row a request stands for: its estimate while in flight, its charge once closed, none if it is free. */
  ghost function RowsOf(q: Request): seq<Row> {
    var held := Row(q.tenant, q.id, q.estimate, q.admittedAt, Reserved);
    match q.phase
    case InFlight => [held]
    case Aborted => []
    case Undone => []
    case _ => BilledRow(held, BillOf(q.calls, q.estimate))
  }

  ghost predicate HasNoRow(q: Request) {
    |RowsOf(q)| == 0
  }

  ghost function Books(requests: seq<Request>): seq<Row>
    decreases |requests|
  {
    if |requests| == 0 then [] else RowsOf(requests[0]) + Books(requests[1..])
  }

  ghost predicate UniqueIds(requests: seq<Request>) {
    forall i, j | 0 <= i < j < |requests| :: requests[i].id != requests[j].id
  }

  /** Exactly one settle or release per request, and one more release for a request undone while closing. */
  ghost predicate ClosedOnce(q: Request) {
    match q.phase
    case InFlight => q.closings == []
    case Aborted => q.closings == [Free]
    case Undone => q.closings == [BillOf(q.calls, q.estimate), Free]
    case _ => q.closings == [BillOf(q.calls, q.estimate)]
  }

  ghost predicate AllClosedOnce(requests: seq<Request>) {
    forall r | 0 <= r < |requests| :: ClosedOnce(requests[r])
  }

  /** The table is the books, less what has left the window by the last admission check. */
  ghost predicate Balanced(cfg: Config, s: System) {
    s.rows == Evict(Books(s.requests), s.last - cfg.window)
  }

  ghost predicate Inv(cfg: Config, s: System) {
    UniqueIds(s.requests) && AllClosedOnce(s.requests) && Balanced(cfg, s)
  }

  lemma {:induction false} BooksAppend(requests: seq<Request>, q: Request)
    ensures Books(requests + [q]) == Books(requests) + RowsOf(q)
    decreases |requests|
  {
    if |requests| == 0 {
      AppendNil([q]);
      AppendNil(RowsOf(q));
      assert |[q][1..]| == 0;
    } else {
      BooksAppend(requests[1..], q);
      AppendUncons(requests, [q]);
      Associative(RowsOf(requests[0]), Books(requests[1..]), RowsOf(q));
    }
  }

  /** Only its own request has a row with an id. */
  lemma {:induction false} BooksIds(requests: seq<Request>, id: string)
    requires !KnownId(requests, id)
    ensures !HasRequest(Books(requests), id)
    decreases |requests|
  {
    if |requests| > 0 {
      assert requests[0].id != id;
      assert forall r | 0 <= r < |requests[1..]| :: requests[1..][r] == requests[r + 1];
      BooksIds(requests[1..], id);
      assert !HasRequest(RowsOf(requests[0]), id);
      HasRequestAppend(RowsOf(requests[0]), Books(requests[1..]), id);
    }
  }

  lemma HasRequestAppend(a: seq<Row>, b: seq<Row>, id: string)
    requires !HasRequest(a, id) && !HasRequest(b, id)
    ensures !HasRequest(a + b, id)
  {
    forall i | 0 <= i < |a + b|
      ensures (a + b)[i].requestId != id
    {
      if i < |a| {
        assert (a + b)[i] == a[i];
      } else {
        assert (a + b)[i] == b[i - |a|];
      }
    }
  }

  /** Billing the table for one request changes that request's entry in the books, and no other. */
  lemma {:induction false} BooksBilled(requests: seq<Request>, r: nat, q: Request, bill: Bill)
    requires r < |requests| && UniqueIds(requests) && requests[r].id == q.id
    requires RowsOf(q) == Billed(RowsOf(requests[r]), q.id, bill)
    ensures Books(requests[r := q]) == Billed(Books(requests), q.id, bill)
    decreases |requests|
  {
    var first, rest := requests[0], requests[1..];
    var updated := requests[r := q];
    BilledAppend(RowsOf(first), Books(rest), q.id, bill);
    assert forall i | 0 <= i < |rest| :: rest[i] == requests[i + 1];
    if r == 0 {
      assert updated[0] == q && updated[1..] == rest;
      BooksIds(rest, q.id);
      BilledUntouched(Books(rest), q.id, bill);
    } else {
      assert updated[0] == first && updated[1..] == rest[r - 1 := q];
      BooksBilled(rest, r - 1, q, bill);
      assert first.id != q.id;
      BilledUntouched(RowsOf(first), q.id, bill);
    }
  }

  lemma EvictBilled(rows: seq<Row>, id: string, bill: Bill, h: real)
    ensures Billed(Evict(rows, h), id, bill) == Evict(Billed(rows, id, bill), h)
  {
    match bill
    case Charge(tokens) => EvictSetTokens(rows, id, tokens, h);
    case Free => EvictRemove(rows, id, h);
  }

  // ---- Every action keeps the books -----------------------------------------------------------

  /** The bill an action may apply: a free one to abort, or the one that closes a request in flight. */
  ghost predicate MayApply(q: Request, bill: Bill, phase: Phase) {
    || (phase.Aborted? && bill == Free && q.phase.InFlight?)
    || (phase.Undone? && bill == Free && q.phase.Closing?)
    || (phase.Closing? && q.phase.InFlight? && bill == BillOf(q.calls, q.estimate))
  }

  lemma ApplyBalanced(cfg: Config, s: System, r: nat, bill: Bill, phase: Phase)
    requires UniqueIds(s.requests) && Balanced(cfg, s) && r < |s.requests|
    requires MayApply(s.requests[r], bill, phase)
    ensures Balanced(cfg, Apply(s, r, bill, phase))
  {
    var q := s.requests[r];
    RowsBilled(q, Billing(q, bill, phase), bill);
    BooksBilled(s.requests, r, Billing(q, bill, phase), bill);
    EvictBilled(Books(s.requests), q.id, bill, s.last - cfg.window);
  }

  lemma ApplyCloses(q: Request, bill: Bill, phase: Phase)
    requires ClosedOnce(q) && MayApply(q, bill, phase)
    ensures ClosedOnce(Billing(q, bill, phase))
  {
  }

  lemma OneChanged(requests: seq<Request>, r: nat, q: Request)
    requires r < |requests| && UniqueIds(requests) && AllClosedOnce(requests)
    requires q.id == requests[r].id && ClosedOnce(q)
    ensures UniqueIds(requests[r := q]) && AllClosedOnce(requests[r := q])
  {
  }

  lemma ApplyKeeps(cfg: Config, s: System, r: nat, bill: Bill, phase: Phase)
    requires Inv(cfg, s) && r < |s.requests| && MayApply(s.requests[r], bill, phase)
    ensures Inv(cfg, Apply(s, r, bill, phase))
  {
    ApplyBalanced(cfg, s, r, bill, phase);
    ApplyCloses(s.requests[r], bill, phase);
    OneChanged(s.requests, r, Billing(s.requests[r], bill, phase));
  }

  /** Closing turns the held row into the billed one; aborting deletes whichever row there is. */
  lemma RowsBilled(q: Request, next: Request, bill: Bill)
    requires MayApply(q, bill, next.phase) && next == Billing(q, bill, next.phase)
    ensures RowsOf(next) == Billed(RowsOf(q), q.id, bill)
  {
    if |RowsOf(q)| > 0 {
      BilledSingle(RowsOf(q)[0], bill);
      assert RowsOf(q) == [RowsOf(q)[0]];
    }
  }

  /** An entry changed without a change of row leaves the books as they are. */
  lemma {:induction false} SameRows(requests: seq<Request>, r: nat, q: Request)
    requires r < |requests| && RowsOf(q) == RowsOf(requests[r])
    ensures Books(requests[r := q]) == Books(requests)
    decreases |requests|
  {
    if r == 0 {
      assert requests[r := q][1..] == requests[1..];
    } else {
      assert requests[r := q][1..] == requests[1..][r - 1 := q];
      SameRows(requests[1..], r - 1, q);
    }
  }

  lemma UpdateKeeps(cfg: Config, s: System, r: nat, q: Request)
    requires Inv(cfg, s) && r < |s.requests| && q.id == s.requests[r].id
    requires RowsOf(q) == RowsOf(s.requests[r]) && ClosedOnce(q)
    ensures Inv(cfg, Update(s, r, q))
  {
    SameRows(s.requests, r, q);
    OneChanged(s.requests, r, q);
  }

  lemma EvictedIds(rows: seq<Row>, h: real, id: string)
    requires !HasRequest(rows, id)
    ensures !HasRequest(Evict(rows, h), id)
  {
    EvictKeeps(rows, h);
    forall i | 0 <= i < |Evict(rows, h)|
      ensures Evict(rows, h)[i].requestId != id
    {
      assert Evict(rows, h)[i] in rows;
    }
  }

  /** The unique index is never hit: a fresh id is in no row. */
  lemma FreshInTable(cfg: Config, s: System, id: string, h: real)
    requires Balanced(cfg, s) && !KnownId(s.requests, id)
    ensures !HasRequest(Evict(s.rows, h), id)
  {
    BooksIds(s.requests, id);
    EvictedIds(Books(s.requests), s.last - cfg.window, id);
    EvictedIds(s.rows, h, id);
  }

  function NewRequest(a: Action): Request
    requires a.Admit?
  {
    Request(a.id, a.tenant, a.estimate, a.now, [], InFlight, [])
  }

  lemma FreshReserve(cfg: Config, rows: seq<Row>, a: Action)
    requires a.Admit? && !HasRequest(Evict(rows, a.now - cfg.window), a.id)
    ensures var kept := Evict(rows, a.now - cfg.window);
            var (after, outcome) := Step(cfg, rows, Reserve(a.now, a.tenant, a.estimate, a.id), true);
            if outcome.Admitted? then after == kept + [Row(a.tenant, a.id, a.estimate, a.now, Reserved)] else after == kept
  {
  }

  /** An admission check appends one row and one request, or only evicts. */
  lemma AdmissionIs(cfg: Config, s: System, a: Action)
    requires Balanced(cfg, s) && a.Admit? && !KnownId(s.requests, a.id)
    ensures var kept := Evict(s.rows, a.now - cfg.window);
            var t := Admitted(cfg, s, a);
            || t == System(s.requests, kept, a.now)
            || t == System(s.requests + [NewRequest(a)], kept + RowsOf(NewRequest(a)), a.now)
  {
    FreshInTable(cfg, s, a.id, a.now - cfg.window);
    FreshReserve(cfg, s.rows, a);
  }

  /** With one more request admitted now, the books evicted now gain just its row. */
  lemma BooksGain(cfg: Config, s: System, a: Action)
    requires cfg.Valid() && Balanced(cfg, s) && a.Admit? && s.last <= a.now
    ensures var h := a.now - cfg.window;
            && Evict(Books(s.requests), h) == Evict(s.rows, h)
            && Evict(Books(s.requests + [NewRequest(a)]), h) == Evict(s.rows, h) + RowsOf(NewRequest(a))
  {
    var h := a.now - cfg.window;
    var q := NewRequest(a);
    EvictTwice(Books(s.requests), s.last - cfg.window, h);
    BooksAppend(s.requests, q);
    EvictAppend(Books(s.requests), RowsOf(q)[0], h);
    assert RowsOf(q) == [RowsOf(q)[0]];
  }

  lemma AdmitKeeps(cfg: Config, s: System, a: Action)
    requires cfg.Valid() && Inv(cfg, s) && a.Admit? && s.last <= a.now && !KnownId(s.requests, a.id)
    ensures Inv(cfg, Admitted(cfg, s, a))
  {
    AdmissionIs(cfg, s, a);
    BooksGain(cfg, s, a);
    UniqueAppend(s.requests, NewRequest(a));
    ClosedAppend(s.requests, NewRequest(a));
  }

  lemma ClosedAppend(requests: seq<Request>, q: Request)
    requires AllClosedOnce(requests) && ClosedOnce(q)
    ensures AllClosedOnce(requests + [q])
  {
  }

  lemma UniqueAppend(requests: seq<Request>, q: Request)
    requires UniqueIds(requests) && !KnownId(requests, q.id)
    ensures UniqueIds(requests + [q])
  {
  }

  lemma ActKeeps(cfg: Config, providers: nat, s: System, a: Action)
    requires cfg.Valid() && Inv(cfg, s) && Act(cfg, providers, s, a).Some?
    ensures Inv(cfg, Act(cfg, providers, s, a).value)
  {
    if !a.Admit? {
      assert ClosedOnce(s.requests[a.r]);
    }
    match a
    case Admit(_, _, _, _) => AdmitKeeps(cfg, s, a);
    case Try(r, call) => UpdateKeeps(cfg, s, r, s.requests[r].(calls := s.requests[r].calls + [call]));
    case Close(r) => ApplyKeeps(cfg, s, r, BillOf(s.requests[r].calls, s.requests[r].estimate), Closing);
    case Return(r) => UpdateKeeps(cfg, s, r, s.requests[r].(phase := Finished));
    case Abort(r) => ApplyKeeps(cfg, s, r, Free, if s.requests[r].phase.InFlight? then Aborted else Undone);
  }

  lemma {:induction false} ReachesKeeps(cfg: Config, providers: nat, s: System, actions: seq<Action>, t: System)
    requires cfg.Valid() && Inv(cfg, s) && Reaches(cfg, providers, s, actions, t)
    ensures Inv(cfg, t)
    decreases |actions|
  {
    if |actions| > 0 {
      ActKeeps(cfg, providers, s, actions[0]);
      ReachesKeeps(cfg, providers, Act(cfg, providers, s, actions[0]).value, actions[1..], t);
    }
  }

  // ---- Main results ---------------------------------------------------------------------------

  /** Main result: whatever the interleaving, the table holds exactly one row for each request still inside the
      window that is in flight (its estimate, reserved) or has been charged (its charge, settled), in order of
      admission, and no other row; and every request closes exactly once, or is undone after it has. */
  lemma BooksBalance(cfg: Config, providers: nat, start: real, actions: seq<Action>, t: System)
    requires cfg.Valid() && Reaches(cfg, providers, System([], [], start), actions, t)
    ensures t.rows == Evict(Books(t.requests), t.last - cfg.window)
    ensures UniqueIds(t.requests) && AllClosedOnce(t.requests)
  {
    ReachesKeeps(cfg, providers, System([], [], start), actions, t);
  }

  ghost predicate UndoneIn(s: System, r: nat) {
    r < |s.requests| && s.requests[r].phase.Undone?
  }

  /** The action finds request `r` with its settling transaction committed, and aborts it. */
  ghost predicate AbortsClosing(s: System, a: Action, r: nat) {
    a == Abort(r) && r < |s.requests| && s.requests[r].phase.Closing?
  }

  /** Some action of the run does. */
  ghost predicate AbortedWhileClosing(cfg: Config, providers: nat, s: System, actions: seq<Action>, r: nat)
    decreases |actions|
  {
    |actions| > 0 &&
    var next := Act(cfg, providers, s, actions[0]);
    AbortsClosing(s, actions[0], r) || (next.Some? && AbortedWhileClosing(cfg, providers, next.value, actions[1..], r))
  }

  lemma AbortUndoes(cfg: Config, providers: nat, s: System, a: Action, r: nat)
    requires Act(cfg, providers, s, a).Some?
    ensures UndoneIn(Act(cfg, providers, s, a).value, r) <==> UndoneIn(s, r) || AbortsClosing(s, a, r)
  {
  }

  lemma {:induction false} UndoneExactlyWhenAborted(cfg: Config, providers: nat, s: System, actions: seq<Action>, t: System, r: nat)
    requires Reaches(cfg, providers, s, actions, t)
    ensures UndoneIn(t, r) <==> UndoneIn(s, r) || AbortedWhileClosing(cfg, providers, s, actions, r)
    decreases |actions|
  {
    if |actions| > 0 {
      AbortUndoes(cfg, providers, s, actions[0], r);
      UndoneExactlyWhenAborted(cfg, providers, Act(cfg, providers, s, actions[0]).value, actions[1..], t, r);
    }
  }

  /** Main result: over a whole run, a request applies two bills exactly when some action aborted it after its
      settling transaction had committed; any other request that is no longer in flight applied exactly one. */
  lemma ClosedTwiceExactlyWhenAborted(cfg: Config, providers: nat, start: real, actions: seq<Action>, t: System, r: nat)
    requires cfg.Valid() && Reaches(cfg, providers, System([], [], start), actions, t) && r < |t.requests|
    ensures |t.requests[r].closings| == 2 <==> AbortedWhileClosing(cfg, providers, System([], [], start), actions, r)
    ensures |t.requests[r].closings| == 0 <==> t.requests[r].phase.InFlight?
    ensures |t.requests[r].closings| <= 2
  {
    BooksBalance(cfg, providers, start, actions, t);
    UndoneExactlyWhenAborted(cfg, providers, System([], [], start), actions, t, r);
    assert ClosedOnce(t.requests[r]);
  }

  /** A request that was aborted, even after its settling transaction, leaves no charge, whatever it was billed. */
  lemma UndoneIsFree(cfg: Config, providers: nat, start: real, actions: seq<Action>, t: System, r: nat)
    requires cfg.Valid() && Reaches(cfg, providers, System([], [], start), actions, t)
    requires r < |t.requests| && t.requests[r].phase in {Aborted, Undone}
    ensures forall row | row in t.rows :: row.requestId != t.requests[r].id
  {
    BooksBalance(cfg, providers, start, actions, t);
    EvictKeeps(Books(t.requests), t.last - cfg.window);
    forall row | row in t.rows
      ensures row.requestId != t.requests[r].id
    {
      FreeHasNoRow(t.requests, r, row);
    }
  }

  lemma FreeHasNoRow(requests: seq<Request>, r: nat, row: Row)
    requires UniqueIds(requests) && r < |requests| && HasNoRow(requests[r]) && row in Books(requests)
    ensures row.requestId != requests[r].id
  {
    var other := BooksRow(requests, row);
    NotTheSame(requests, r, other);
  }

  lemma NotTheSame(requests: seq<Request>, r: nat, other: nat)
    requires UniqueIds(requests) && r < |requests| && other < |requests|
    requires HasNoRow(requests[r]) && !HasNoRow(requests[other])
    ensures requests[r].id != requests[other].id
  {
  }

  /** A run that ends so: admitted, timed out, charged its estimate, and then aborted. */
  lemma AChargeIsUndone(cfg: Config, start: real, id: string, tenant: string, estimate: nat)
      returns (actions: seq<Action>, t: System)
    requires cfg.Valid() && estimate <= cfg.limit
    ensures Reaches(cfg, 1, System([], [], start), actions, t)
    ensures |t.requests| == 1 && t.requests[0].phase.Undone? && t.requests[0].id == id
    ensures t.requests[0].closings == [Charge(estimate), Free]
    ensures BillOf(t.requests[0].calls, estimate) == Charge(estimate) && t.rows == []
  {
    actions := [Admit(start, id, tenant, estimate), Try(0, TimedOut), Close(0), Abort(0)];
    var s0 := System([], [], start);
    var held := Row(tenant, id, estimate, start, Reserved);
    var q := Request(id, tenant, estimate, start, [], InFlight, []);
    var s1 := System([q], [held], start);
    AdmittedFirst(cfg, s0, actions[0], s1);
    var tried := q.(calls := [TimedOut]);
    var s2 := System([tried], [held], start);
    OneTimeout(estimate);
    var s3 := System([Billing(tried, Charge(estimate), Closing)], BilledRow(held, Charge(estimate)), start);
    BilledSingle(held, Charge(estimate));
    BilledSingle(BilledRow(held, Charge(estimate))[0], Free);
    t := System([Billing(s3.requests[0], Free, Undone)], [], start);
    UpdateAlone(s1, tried);
    ApplyAlone(s2, Charge(estimate), Closing);
    ApplyAlone(s3, Free, Undone);
    assert StopAt([]) == 0 && q.calls + [TimedOut] == [TimedOut];
    assert s3.rows == [s3.rows[0]];
    assert Act(cfg, 1, s1, actions[1]) == Some(s2);
    assert Act(cfg, 1, s2, actions[2]) == Some(s3);
    assert Act(cfg, 1, s3, actions[3]) == Some(t);
    FourSteps(cfg, 1, s0, actions, s1, s2, s3, t);
  }

  lemma UpdateAlone(s: System, q: Request)
    requires |s.requests| == 1
    ensures Update(s, 0, q) == System([q], s.rows, s.last)
  {
    assert s.requests[0 := q] == [q];
  }

  lemma ApplyAlone(s: System, bill: Bill, phase: Phase)
    requires |s.requests| == 1
    ensures Apply(s, 0, bill, phase)
            == System([Billing(s.requests[0], bill, phase)], Billed(s.rows, s.requests[0].id, bill), s.last)
  {
    UpdateAlone(s, Billing(s.requests[0], bill, phase));
  }

  lemma OneTimeout(reserved: nat)
    ensures StopAt([TimedOut]) == 1 && BillOf([TimedOut], reserved) == Charge(reserved)
  {
    assert [TimedOut][0].TimedOut?;
  }

  lemma AdmittedFirst(cfg: Config, s: System, a: Action, t: System)
    requires cfg.Valid() && a.Admit? && a.estimate <= cfg.limit && s == System([], [], a.now)
    requires t == System([Request(a.id, a.tenant, a.estimate, a.now, [], InFlight, [])],
                         [Row(a.tenant, a.id, a.estimate, a.now, Reserved)], a.now)
    ensures Act(cfg, 1, s, a) == Some(t)
  {
    assert Evict([], a.now - cfg.window) == [] && RateLimit.Live([], a.tenant, a.now - cfg.window) == [];
    assert [] + t.rows == t.rows && [] + t.requests == t.requests;
  }

  lemma FourSteps(cfg: Config, providers: nat, s: System, actions: seq<Action>, s1: System, s2: System, s3: System, t: System)
    requires |actions| == 4
    requires Act(cfg, providers, s, actions[0]) == Some(s1) && Act(cfg, providers, s1, actions[1]) == Some(s2)
    requires Act(cfg, providers, s2, actions[2]) == Some(s3) && Act(cfg, providers, s3, actions[3]) == Some(t)
    ensures Reaches(cfg, providers, s, actions, t)
  {
    assert Reaches(cfg, providers, t, actions[1..][1..][1..][1..], t);
    assert Reaches(cfg, providers, s3, actions[1..][1..][1..], t);
    assert Reaches(cfg, providers, s2, actions[1..][1..], t);
    assert Reaches(cfg, providers, s1, actions[1..], t);
  }

  lemma {:induction false} BooksRow(requests: seq<Request>, row: Row) returns (r: nat)
    requires row in Books(requests)
    ensures r < |requests| && row in RowsOf(requests[r]) && requests[r].id == row.requestId && !HasNoRow(requests[r])
    decreases |requests|
  {
    if row in RowsOf(requests[0]) {
      r := 0;
    } else {
      r := BooksRow(requests[1..], row);
      r := r + 1;
    }
  }

  /** No finished or aborted request leaves its reservation behind. */
  lemma NoReservationLeft(cfg: Config, providers: nat, start: real, actions: seq<Action>, t: System, row: Row)
      returns (r: nat)
    requires cfg.Valid() && Reaches(cfg, providers, System([], [], start), actions, t)
    requires row in t.rows && row.state == Reserved
    ensures r < |t.requests| && t.requests[r].phase.InFlight? && t.requests[r].id == row.requestId
    ensures row.tokens == t.requests[r].estimate
  {
    BooksBalance(cfg, providers, start, actions, t);
    EvictKeeps(Books(t.requests), t.last - cfg.window);
    r := BooksRow(t.requests, row);
  }

  /** What a tenant's requests inside the window hold or have been charged. */
  ghost function Owed(requests: seq<Request>, tenant: string, horizon: real): nat
    decreases |requests|
  {
    if |requests| == 0 then 0
    else
      var q := requests[0];
      (if q.tenant != tenant || q.admittedAt <= horizon then 0
       else match q.phase
            case InFlight => q.estimate
            case Aborted => 0
            case Undone => 0
            case _ => var bill := BillOf(q.calls, q.estimate); if bill.Charge? then bill.tokens else 0)
      + Owed(requests[1..], tenant, horizon)
  }

  lemma {:induction false} OwedIsLive(requests: seq<Request>, tenant: string, horizon: real)
    ensures Total(RateLimit.Live(Books(requests), tenant, horizon)) == Owed(requests, tenant, horizon)
    decreases |requests|
  {
    if |requests| > 0 {
      OwedIsLive(requests[1..], tenant, horizon);
      var rows, rest := RowsOf(requests[0]), Books(requests[1..]);
      if |rows| > 0 {
        assert rows == [rows[0]];
        AppendUncons(rows, rest);
        assert rows[1..] + rest == rest;
        var live := RateLimit.Live(rest, tenant, horizon);
        AppendUncons([rows[0]], live);
        AppendNil(live);
      } else {
        AppendNil(rest);
      }
    }
  }

  /** Conservation: the usage the limiter reports for a tenant is the sum, over that tenant's requests admitted
      inside the window, of the estimate of each one in flight and the charge of each one closed. */
  lemma UsageIsOwed(cfg: Config, providers: nat, start: real, actions: seq<Action>, t: System, tenant: string, now: real)
    requires cfg.Valid() && Reaches(cfg, providers, System([], [], start), actions, t) && t.last <= now
    ensures Used(cfg, t.rows, tenant, now) == Owed(t.requests, tenant, now - cfg.window)
  {
    ReachesKeeps(cfg, providers, System([], [], start), actions, t);
    BalancedUsage(cfg, t, tenant, now);
  }

  lemma BalancedUsage(cfg: Config, s: System, tenant: string, now: real)
    requires Balanced(cfg, s) && s.last <= now
    ensures Used(cfg, s.rows, tenant, now) == Owed(s.requests, tenant, now - cfg.window)
  {
    EvictedUsage(s.requests, tenant, s.last - cfg.window, now - cfg.window);
  }

  lemma EvictedUsage(requests: seq<Request>, tenant: string, h: real, horizon: real)
    requires h <= horizon
    ensures Total(RateLimit.Live(Evict(Books(requests), h), tenant, horizon)) == Owed(requests, tenant, horizon)
  {
    LiveAfterEvict(Books(requests), tenant, h, horizon);
    OwedIsLive(requests, tenant, horizon);
  }
}

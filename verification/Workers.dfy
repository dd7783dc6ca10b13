/** Several gateway workers over one database file: transactions broken into begin, evict, read, write and
    commit or rollback, interleaved in any order, under one write lock. */
module Workers {
  import opened Basics
  import opened RateLimit
  import opened RateHistory

  /** Where a worker is in its transaction; `view` is the table as its transaction sees it. */
  datatype Phase =
    | Idle
    | Waiting(op: Op)
    | Begun(op: Op, view: seq<Row>)
    | Evicted(op: Op, view: seq<Row>)
    | Totalled(op: Op, view: seq<Row>, used: nat)
    | Finished(op: Op, view: seq<Row>, outcome: Outcome)

  datatype Entry = Entry(op: Op, outcome: Outcome)

  /** `writer` holds the database write lock; `log` lists committed transactions in commit order. */
  datatype System = System(committed: seq<Row>, writer: Option<nat>, phases: seq<Phase>, log: seq<Entry>)

  datatype Action =
    | Arrive(worker: nat, op: Op)     // the clock is read here, before any lock
    | Begin(worker: nat)              // BEGIN IMMEDIATE: takes the write lock
    | DeleteExpired(worker: nat)
    | ReadTotal(worker: nat)
    | Write(worker: nat)
    | Commit(worker: nat)
    | Rollback(worker: nat)           // an exception at any point of an open transaction

  function Initial(workers: nat): System {
    System([], None, seq(workers, i => Idle), [])
  }

  predicate Open(phase: Phase) {
    !phase.Idle? && !phase.Waiting?
  }

  /** One action of one worker, or nothing if the worker cannot take it now. */
  function Act(cfg: Config, s: System, a: Action): Option<System> {
    if a.worker >= |s.phases| then None
    else
      var phase := s.phases[a.worker];
      match a
      case Arrive(w, op) =>
        if phase.Idle? && !op.Usage? then Some(s.(phases := s.phases[w := Waiting(op)])) else None
      case Begin(w) =>
        if phase.Waiting? && s.writer.None?
        then Some(s.(writer := Some(w), phases := s.phases[w := Begun(phase.op, s.committed)]))
        else None
      case DeleteExpired(w) =>
        if phase.Begun? && phase.op.Reserve?
        then Some(s.(phases := s.phases[w := Evicted(phase.op, Evict(phase.view, phase.op.now - cfg.window))]))
        else None
      case ReadTotal(w) =>
        if phase.Evicted? && phase.op.Reserve?
        then Some(s.(phases := s.phases[w := Totalled(phase.op, phase.view,
                                                      Used(cfg, phase.view, phase.op.tenant, phase.op.now))]))
        else None
      case Write(w) =>
        if phase.Totalled? && phase.op.Reserve? then
          if phase.used + phase.op.estimate > cfg.limit then
            var wait := RetryAfter(cfg, phase.view, phase.op.tenant, phase.op.now, phase.op.estimate);
            Some(s.(phases := s.phases[w := Finished(phase.op, phase.view, Refused(phase.used, wait))]))
          else if HasRequest(phase.view, phase.op.requestId) then None
          else
            var row := Row(phase.op.tenant, phase.op.requestId, phase.op.estimate, phase.op.now, Reserved);
            Some(s.(phases := s.phases[w := Finished(phase.op, phase.view + [row],
                                                     Admitted(phase.used + phase.op.estimate))]))
        else if phase.Begun? && phase.op.Settle? then
          Some(s.(phases := s.phases[w := Finished(phase.op, SetTokens(phase.view, phase.op.requestId, phase.op.actual), Done)]))
        else if phase.Begun? && phase.op.Release? then
          Some(s.(phases := s.phases[w := Finished(phase.op, Remove(phase.view, phase.op.requestId), Done)]))
        else None
      case Commit(w) =>
        if phase.Finished?
        then Some(System(phase.view, None, s.phases[w := Idle], s.log + [Entry(phase.op, phase.outcome)]))
        else None
      case Rollback(w) =>
        if Open(phase) then Some(s.(writer := None, phases := s.phases[w := Idle])) else None
  }

  /** Reachable by some interleaving of actions. */
  ghost predicate Reaches(cfg: Config, s: System, actions: seq<Action>, t: System)
    decreases |actions|
  {
    if |actions| == 0 then s == t
    else Act(cfg, s, actions[0]).Some? && Reaches(cfg, Act(cfg, s, actions[0]).value, actions[1..], t)
  }

  // ---- What every step keeps ------------------------------------------------------------------

  /** An open transaction sees the committed table, changed only by its own statements so far. */
  ghost predicate ViewOk(cfg: Config, committed: seq<Row>, phase: Phase) {
    match phase
    case Begun(op, view) => !op.Usage? && view == committed
    case Evicted(op, view) => op.Reserve? && view == Evict(committed, op.now - cfg.window)
    case Totalled(op, view, used) =>
      && op.Reserve? && view == Evict(committed, op.now - cfg.window)
      && used == Used(cfg, view, op.tenant, op.now)
    case Finished(op, view, outcome) =>
      !op.Usage? && !outcome.Conflict? && (view, outcome) == Step(cfg, committed, op, true)
    case Waiting(op) => !op.Usage?
    case Idle => true
  }

  function Ops(log: seq<Entry>): seq<Op> {
    seq(|log|, i requires 0 <= i < |log| => log[i].op)
  }

  function Outcomes(log: seq<Entry>): seq<Outcome> {
    seq(|log|, i requires 0 <= i < |log| => log[i].outcome)
  }

  /** A transaction is open exactly at the holder of the write lock. */
  ghost predicate LockOk(s: System) {
    forall w | 0 <= w < |s.phases| :: Open(s.phases[w]) <==> s.writer == Some(w)
  }

  ghost predicate ViewsOk(cfg: Config, s: System) {
    forall w | 0 <= w < |s.phases| :: ViewOk(cfg, s.committed, s.phases[w])
  }

  ghost predicate SerialOk(cfg: Config, s: System) {
    Run(cfg, [], Ops(s.log), true) == (s.committed, Outcomes(s.log))
  }

  ghost predicate Inv(cfg: Config, s: System) {
    LockOk(s) && ViewsOk(cfg, s) && SerialOk(cfg, s)
  }

  lemma {:induction false} RunAppend(cfg: Config, rows: seq<Row>, ops: seq<Op>, op: Op)
    ensures var (mid, outcomes) := Run(cfg, rows, ops, true);
            var (after, outcome) := Step(cfg, mid, op, true);
            Run(cfg, rows, ops + [op], true) == (after, outcomes + [outcome])
    decreases |ops|
  {
    if |ops| == 0 {
      AppendNil([op]);
      AppendNil([Step(cfg, rows, op, true).1]);
      assert |[op][1..]| == 0;
    } else {
      AppendUncons(ops, [op]);
      RunAppend(cfg, Step(cfg, rows, ops[0], true).0, ops[1..], op);
      var (mid, outcomes) := Run(cfg, Step(cfg, rows, ops[0], true).0, ops[1..], true);
      Associative([Step(cfg, rows, ops[0], true).1], outcomes, [Step(cfg, mid, op, true).1]);
    }
  }

  lemma CommitIsSerial(cfg: Config, s: System, w: nat)
    requires Inv(cfg, s) && w < |s.phases| && s.phases[w].Finished?
    ensures SerialOk(cfg, Act(cfg, s, Commit(w)).value)
  {
    var entry := Entry(s.phases[w].op, s.phases[w].outcome);
    assert ViewOk(cfg, s.committed, s.phases[w]);
    RunAppend(cfg, [], Ops(s.log), entry.op);
    assert Ops(s.log + [entry]) == Ops(s.log) + [entry.op];
    assert Outcomes(s.log + [entry]) == Outcomes(s.log) + [entry.outcome];
  }

  lemma ActKeepsLock(cfg: Config, s: System, a: Action)
    requires LockOk(s) && Act(cfg, s, a).Some?
    ensures LockOk(Act(cfg, s, a).value)
  {
  }

  /** The acting worker's new view is right; and only the holder of the lock changes the committed table, so
      no other open transaction is there to be disturbed. */
  lemma ActKeepsViews(cfg: Config, s: System, a: Action)
    requires LockOk(s) && ViewsOk(cfg, s) && Act(cfg, s, a).Some?
    ensures ViewsOk(cfg, Act(cfg, s, a).value)
  {
    var t := Act(cfg, s, a).value;
    assert ViewOk(cfg, s.committed, s.phases[a.worker]);
    assert ViewOk(cfg, t.committed, t.phases[a.worker]);
    forall w | 0 <= w < |t.phases| && w != a.worker
      ensures ViewOk(cfg, t.committed, t.phases[w])
    {
      assert t.phases[w] == s.phases[w] && ViewOk(cfg, s.committed, s.phases[w]);
    }
  }

  lemma ActKeepsInv(cfg: Config, s: System, a: Action)
    requires Inv(cfg, s) && Act(cfg, s, a).Some?
    ensures Inv(cfg, Act(cfg, s, a).value)
  {
    ActKeepsLock(cfg, s, a);
    ActKeepsViews(cfg, s, a);
    if a.Commit? {
      CommitIsSerial(cfg, s, a.worker);
    }
  }

  lemma {:induction false} ReachesKeepsInv(cfg: Config, s: System, actions: seq<Action>, t: System)
    requires Inv(cfg, s) && Reaches(cfg, s, actions, t)
    ensures Inv(cfg, t)
    decreases |actions|
  {
    if |actions| > 0 {
      ActKeepsInv(cfg, s, actions[0]);
      ReachesKeepsInv(cfg, Act(cfg, s, actions[0]).value, actions[1..], t);
    }
  }

  /** Main result: whatever the interleaving, the committed table and the outcomes are those of running the
      committed transactions one after the other, in commit order, each as one atomic step. */
  lemma InterleavingIsSerial(cfg: Config, workers: nat, actions: seq<Action>, t: System)
    requires Reaches(cfg, Initial(workers), actions, t)
    ensures Run(cfg, [], Ops(t.log), true) == (t.committed, Outcomes(t.log))
  {
    assert Ops([]) == [] && Outcomes([]) == [];
    ReachesKeepsInv(cfg, Initial(workers), actions, t);
  }

  /** The total an open admission check has read is the committed total, up to the commit; so right after an
      admission the tenant's rows newer than that worker's horizon are within the limit, whatever its clock said. */
  lemma AdmissionWithinLimit(cfg: Config, workers: nat, actions: seq<Action>, t: System, w: nat)
    requires Reaches(cfg, Initial(workers), actions, t)
    requires w < |t.phases| && t.phases[w].Finished? && t.phases[w].outcome.Admitted?
    ensures var op := t.phases[w].op;
            var after := Act(cfg, t, Commit(w)).value.committed;
            && op.Reserve?
            && t.phases[w].outcome.used == Used(cfg, Evict(t.committed, op.now - cfg.window), op.tenant, op.now) + op.estimate
            && Used(cfg, after, op.tenant, op.now) <= cfg.limit
  {
    assert Ops([]) == [] && Outcomes([]) == [];
    ReachesKeepsInv(cfg, Initial(workers), actions, t);
    AdmissionFits(cfg, t, w);
  }

  lemma AdmissionFits(cfg: Config, s: System, w: nat)
    requires ViewsOk(cfg, s) && w < |s.phases| && s.phases[w].Finished? && s.phases[w].outcome.Admitted?
    requires Act(cfg, s, Commit(w)).Some?
    ensures var op := s.phases[w].op;
            var after := Act(cfg, s, Commit(w)).value.committed;
            && op.Reserve?
            && s.phases[w].outcome.used == Used(cfg, Evict(s.committed, op.now - cfg.window), op.tenant, op.now) + op.estimate
            && Used(cfg, after, op.tenant, op.now) <= cfg.limit
  {
    CommitPublishes(cfg, s, w);
    AdmittedFits(cfg, s.committed, s.phases[w].op, s.phases[w].view, s.phases[w].outcome);
  }

  lemma CommitPublishes(cfg: Config, s: System, w: nat)
    requires ViewsOk(cfg, s) && w < |s.phases| && s.phases[w].Finished?
    ensures (s.phases[w].view, s.phases[w].outcome) == Step(cfg, s.committed, s.phases[w].op, true)
    ensures Act(cfg, s, Commit(w)).Some? && Act(cfg, s, Commit(w)).value.committed == s.phases[w].view
  {
    assert ViewOk(cfg, s.committed, s.phases[w]);
  }

  /** One atomic admission leaves the tenant within the limit, as seen from that admission's clock. */
  lemma AdmittedFits(cfg: Config, rows: seq<Row>, op: Op, view: seq<Row>, outcome: Outcome)
    requires (view, outcome) == Step(cfg, rows, op, true) && outcome.Admitted?
    ensures op.Reserve?
    ensures outcome.used == Used(cfg, Evict(rows, op.now - cfg.window), op.tenant, op.now) + op.estimate
    ensures Used(cfg, view, op.tenant, op.now) <= cfg.limit
  {
    LiveAppend(Evict(rows, op.now - cfg.window), Row(op.tenant, op.requestId, op.estimate, op.now, Reserved),
               op.tenant, op.now - cfg.window);
  }
}

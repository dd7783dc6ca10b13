/** The retry time handed to a refused request is exact: not a moment too late, and not a moment too early. */
module RetryTimes {
  import opened Basics
  import opened RateLimit

  /** Tokens of the rows created at or before `time`. */
  function TotalUpTo(rows: seq<Row>, time: real): nat {
    if |rows| == 0 then 0
    else (if rows[0].createdAt <= time then rows[0].tokens else 0) + TotalUpTo(rows[1..], time)
  }

  // ---- Sorting keeps the rows -----------------------------------------------------------------

  predicate NoneBefore(rows: seq<Row>, time: real) {
    forall i | 0 <= i < |rows| :: time <= rows[i].createdAt
  }

  lemma {:induction false} InsertNoneBefore(row: Row, rows: seq<Row>, time: real)
    requires NoneBefore(rows, time) && time <= row.createdAt
    ensures NoneBefore(Insert(row, rows), time)
    decreases |rows|
  {
    if |rows| > 0 && row.createdAt > rows[0].createdAt {
      InsertNoneBefore(row, rows[1..], time);
    }
  }

  lemma {:induction false} InsertSorted(row: Row, rows: seq<Row>)
    requires SortedByTime(rows)
    ensures SortedByTime(Insert(row, rows))
    decreases |rows|
  {
    if |rows| > 0 && row.createdAt > rows[0].createdAt {
      assert NoneBefore(rows[1..], rows[0].createdAt);
      InsertSorted(row, rows[1..]);
      InsertNoneBefore(row, rows[1..], rows[0].createdAt);
    }
  }

  lemma {:induction false} InsertPermutes(row: Row, rows: seq<Row>)
    ensures multiset(Insert(row, rows)) == multiset{row} + multiset(rows)
    decreases |rows|
  {
    if |rows| > 0 {
      assert rows == [rows[0]] + rows[1..];
      if row.createdAt > rows[0].createdAt {
        InsertPermutes(row, rows[1..]);
      }
    }
  }

  /** The query returns the selected rows, each once, oldest first. */
  lemma {:induction false} ByTimeSorts(rows: seq<Row>)
    ensures SortedByTime(ByTime(rows)) && multiset(ByTime(rows)) == multiset(rows)
    decreases |rows|
  {
    if |rows| > 0 {
      ByTimeSorts(rows[1..]);
      InsertSorted(rows[0], ByTime(rows[1..]));
      InsertPermutes(rows[0], ByTime(rows[1..]));
      assert rows == [rows[0]] + rows[1..];
    }
  }

  lemma TotalsCons(row: Row, rest: seq<Row>, time: real)
    ensures Total([row] + rest) == row.tokens + Total(rest)
    ensures TotalUpTo([row] + rest, time) == (if row.createdAt <= time then row.tokens else 0) + TotalUpTo(rest, time)
  {
    AppendUncons([row], rest);
    AppendNil(rest);
  }

  lemma {:induction false} InsertTotals(row: Row, rows: seq<Row>, time: real)
    ensures Total(Insert(row, rows)) == row.tokens + Total(rows)
    ensures TotalUpTo(Insert(row, rows), time) == (if row.createdAt <= time then row.tokens else 0) + TotalUpTo(rows, time)
    decreases |rows|
  {
    if |rows| == 0 {
      TotalsCons(row, [], time);
    } else if row.createdAt <= rows[0].createdAt {
      TotalsCons(row, rows, time);
    } else {
      InsertTotals(row, rows[1..], time);
      TotalsCons(rows[0], Insert(row, rows[1..]), time);
    }
  }

  lemma {:induction false} ByTimeTotals(rows: seq<Row>, time: real)
    ensures Total(ByTime(rows)) == Total(rows) && TotalUpTo(ByTime(rows), time) == TotalUpTo(rows, time)
    decreases |rows|
  {
    if |rows| > 0 {
      ByTimeTotals(rows[1..], time);
      InsertTotals(rows[0], ByTime(rows[1..]), time);
    }
  }

  // ---- The running total ----------------------------------------------------------------------

  lemma {:induction false} NothingUpTo(rows: seq<Row>, time: real)
    requires forall i | 0 <= i < |rows| :: rows[i].createdAt > time
    ensures TotalUpTo(rows, time) == 0
    decreases |rows|
  {
    if |rows| > 0 {
      NothingUpTo(rows[1..], time);
    }
  }

  /** On rows in order, the first row that covers the shortfall marks the earliest moment at which everything
      up to that moment covers it. */
  lemma {:induction false} FirstEnoughIsEarliest(rows: seq<Row>, freed: nat, shortfall: int, time: real)
    requires SortedByTime(rows) && freed < shortfall
    ensures match FirstEnough(rows, freed, shortfall)
            case None => freed + Total(rows) < shortfall
            case Some(c) => freed + TotalUpTo(rows, time) >= shortfall <==> c <= time
    decreases |rows|
  {
    if |rows| > 0 {
      var first, rest := rows[0], rows[1..];
      assert forall i | 0 <= i < |rest| :: rest[i] == rows[i + 1] && first.createdAt <= rest[i].createdAt;
      if freed + first.tokens >= shortfall {
        if time < first.createdAt {
          NothingUpTo(rows, time);
        }
      } else {
        FirstEnoughIsEarliest(rest, freed + first.tokens, shortfall, time);
        FirstEnoughIsLater(rest, freed + first.tokens, shortfall, first.createdAt);
        if time < first.createdAt {
          NothingUpTo(rows, time);
        }
      }
    }
  }

  lemma {:induction false} FirstEnoughIsLater(rows: seq<Row>, freed: nat, shortfall: int, time: real)
    requires forall i | 0 <= i < |rows| :: time <= rows[i].createdAt
    ensures FirstEnough(rows, freed, shortfall).Some? ==> time <= FirstEnough(rows, freed, shortfall).value
    decreases |rows|
  {
    if |rows| > 0 && freed + rows[0].tokens < shortfall {
      FirstEnoughIsLater(rows[1..], freed + rows[0].tokens, shortfall, time);
    }
  }

  // ---- What leaves the window -----------------------------------------------------------------

  /** Later on, the live rows are those of now without the ones that have expired in between. */
  lemma {:induction false} LiveLater(rows: seq<Row>, tenant: string, horizon: real, later: real)
    requires horizon <= later
    ensures Total(Live(rows, tenant, later)) + TotalUpTo(Live(rows, tenant, horizon), later)
         == Total(Live(rows, tenant, horizon))
    decreases |rows|
  {
    if |rows| > 0 {
      LiveLater(rows[1..], tenant, horizon, later);
      var rest, after := Live(rows[1..], tenant, horizon), Live(rows[1..], tenant, later);
      AppendNil(rest);
      AppendNil(after);
      TotalsCons(rows[0], rest, later);
      TotalsCons(rows[0], after, later);
    }
  }

  lemma {:induction false} LiveAreYoung(rows: seq<Row>, tenant: string, horizon: real)
    ensures forall row | row in Live(rows, tenant, horizon) :: row.createdAt > horizon && row in rows
    decreases |rows|
  {
    if |rows| > 0 {
      LiveAreYoung(rows[1..], tenant, horizon);
    }
  }

  /** The request would be admitted at `t`, if nothing else happened. */
  predicate AdmittedAt(cfg: Config, rows: seq<Row>, tenant: string, needed: nat, t: real) {
    Used(cfg, rows, tenant, t) + needed <= cfg.limit
  }

  lemma AdmittedWhenFreed(cfg: Config, rows: seq<Row>, tenant: string, now: real, needed: nat, t: real)
    requires now <= t
    ensures var live := ByTime(Live(rows, tenant, now - cfg.window));
            AdmittedAt(cfg, rows, tenant, needed, t)
            <==> TotalUpTo(live, t - cfg.window) >= Total(live) + needed - cfg.limit
  {
    LiveLater(rows, tenant, now - cfg.window, t - cfg.window);
    ByTimeTotals(Live(rows, tenant, now - cfg.window), t - cfg.window);
  }

  /** On live rows oldest first: the wait ends exactly when what has expired covers the shortfall. */
  lemma WaitIsExact(live: seq<Row>, cfg: Config, now: real, needed: nat, t: real)
    requires SortedByTime(live) && (forall row | row in live :: now - cfg.window < row.createdAt)
    requires Total(live) + needed > cfg.limit >= needed
    ensures var r := WaitFor(live, cfg, now, needed);
            && 0.0 < r
            && ((forall row | row in live :: row.createdAt <= now) ==> r <= cfg.window)
            && (TotalUpTo(live, t - cfg.window) >= Total(live) + needed - cfg.limit <==> now + r <= t)
  {
    FirstEnoughIsEarliest(live, 0, Total(live) + needed - cfg.limit, t - cfg.window);
    SomeRow(live, 0, Total(live) + needed - cfg.limit);
  }

  lemma OldestFirst(unsorted: seq<Row>)
    ensures var live := ByTime(unsorted);
            && SortedByTime(live) && Total(live) == Total(unsorted)
            && (forall row | row in live :: row in unsorted)
  {
    var live := ByTime(unsorted);
    ByTimeSorts(unsorted);
    ByTimeTotals(unsorted, 0.0);
    forall row | row in live
      ensures row in unsorted
    {
      assert row in multiset(live);
    }
  }

  /** Main result: a refused request no larger than the limit is admitted from `now + r` on and refused at every
      moment before, whatever the clocks of the workers that wrote the rows. The wait is positive, and at most one
      window if no row is stamped later than now. */
  lemma RetryAfterIsExact(cfg: Config, rows: seq<Row>, tenant: string, now: real, needed: nat)
    requires !AdmittedAt(cfg, rows, tenant, needed, now) && needed <= cfg.limit
    ensures var r := RetryAfter(cfg, rows, tenant, now, needed);
            && 0.0 < r
            && ((forall row | row in rows :: row.createdAt <= now) ==> r <= cfg.window)
            && (forall t | now <= t :: AdmittedAt(cfg, rows, tenant, needed, t) <==> now + r <= t)
  {
    RetryAfterIsPositive(cfg, rows, tenant, now, needed);
    forall t | now <= t
      ensures AdmittedAt(cfg, rows, tenant, needed, t) <==> now + RetryAfter(cfg, rows, tenant, now, needed) <= t
    {
      RetryAfterAt(cfg, rows, tenant, now, needed, t);
    }
  }

  lemma RefusedIsShort(cfg: Config, rows: seq<Row>, tenant: string, now: real, needed: nat)
    requires !AdmittedAt(cfg, rows, tenant, needed, now)
    ensures var live := ByTime(Live(rows, tenant, now - cfg.window));
            && SortedByTime(live) && Total(live) + needed > cfg.limit
            && (forall row | row in live :: now - cfg.window < row.createdAt && row in rows)
  {
    var unsorted := Live(rows, tenant, now - cfg.window);
    assert Used(cfg, rows, tenant, now) == Total(unsorted);
    OldestFirst(unsorted);
    LiveAreYoung(rows, tenant, now - cfg.window);
    assert forall row | row in ByTime(unsorted) :: row in unsorted;
  }

  lemma RetryAfterAt(cfg: Config, rows: seq<Row>, tenant: string, now: real, needed: nat, t: real)
    requires !AdmittedAt(cfg, rows, tenant, needed, now) && needed <= cfg.limit && now <= t
    ensures AdmittedAt(cfg, rows, tenant, needed, t) <==> now + RetryAfter(cfg, rows, tenant, now, needed) <= t
  {
    RefusedIsShort(cfg, rows, tenant, now, needed);
    AdmittedWhenFreed(cfg, rows, tenant, now, needed, t);
    WaitIsExact(ByTime(Live(rows, tenant, now - cfg.window)), cfg, now, needed, t);
  }

  lemma RetryAfterIsPositive(cfg: Config, rows: seq<Row>, tenant: string, now: real, needed: nat)
    requires !AdmittedAt(cfg, rows, tenant, needed, now) && needed <= cfg.limit
    ensures var r := RetryAfter(cfg, rows, tenant, now, needed);
            && 0.0 < r
            && ((forall row | row in rows :: row.createdAt <= now) ==> r <= cfg.window)
  {
    RefusedIsShort(cfg, rows, tenant, now, needed);
    WaitIsExact(ByTime(Live(rows, tenant, now - cfg.window)), cfg, now, needed, now);
  }

  lemma {:induction false} SomeRow(rows: seq<Row>, freed: nat, shortfall: int)
    requires FirstEnough(rows, freed, shortfall).Some?
    ensures exists i :: 0 <= i < |rows| && rows[i].createdAt == FirstEnough(rows, freed, shortfall).value
    decreases |rows|
  {
    if freed + rows[0].tokens < shortfall {
      SomeRow(rows[1..], freed + rows[0].tokens, shortfall);
      assert forall i | 0 <= i < |rows| - 1 :: rows[1..][i] == rows[i + 1];
    }
  }

  /** A request larger than the limit is told to wait one window, and would be refused at any time. */
  lemma LargerThanTheLimit(cfg: Config, rows: seq<Row>, tenant: string, now: real, needed: nat, t: real)
    requires needed > cfg.limit
    ensures RetryAfter(cfg, rows, tenant, now, needed) == cfg.window
    ensures !AdmittedAt(cfg, rows, tenant, needed, t)
  {
    NeverEnough(ByTime(Live(rows, tenant, now - cfg.window)), cfg, now, needed);
  }

  lemma NeverEnough(live: seq<Row>, cfg: Config, now: real, needed: nat)
    requires needed > cfg.limit
    ensures WaitFor(live, cfg, now, needed) == cfg.window
  {
    FirstEnoughNeedsMore(live, 0, Total(live) + needed - cfg.limit);
  }

  lemma {:induction false} FirstEnoughNeedsMore(rows: seq<Row>, freed: nat, shortfall: int)
    requires freed + Total(rows) < shortfall
    ensures FirstEnough(rows, freed, shortfall).None?
    decreases |rows|
  {
    if |rows| > 0 {
      FirstEnoughNeedsMore(rows[1..], freed + rows[0].tokens, shortfall);
    }
  }

  // ---- The header -----------------------------------------------------------------------------

  /** The `retry-after` header: whole seconds, at least one. */
  function HeaderSeconds(r: real): int
    requires 0.0 <= r
  {
    Max(1, (r + 0.999).Floor)
  }

  /** The header is never earlier than the exact time, except for times over a second that exceed a whole
      number of seconds by less than a thousandth; the rounding constant is not a ceiling. */
  lemma HeaderIsNotEarly(r: real)
    requires 0.0 <= r
    ensures HeaderSeconds(r) as real >= r <==> r <= 1.0 || r == r.Floor as real || r - r.Floor as real >= 0.001
  {
    var whole := r.Floor;
    if r - whole as real >= 0.001 {
      assert (r + 0.999).Floor == whole + 1;
    } else {
      assert (r + 0.999).Floor == whole;
    }
  }

  /** Every wait up to a window occurs: fill the window, and ask again that long before it empties. */
  lemma EveryWaitOccurs(cfg: Config, tenant: string, start: real, r: real, first: string, second: string)
    requires cfg.Valid() && cfg.limit > 0 && 0.0 < r <= cfg.window
    ensures var now := start + cfg.window - r;
            var rows := Step(cfg, [], Reserve(start, tenant, cfg.limit, first), true).0;
            Step(cfg, rows, Reserve(now, tenant, cfg.limit, second), true).1 == Refused(cfg.limit, r)
  {
    var now := start + cfg.window - r;
    var row := Row(tenant, first, cfg.limit, start, Reserved);
    var none: seq<Row> := [];
    assert Step(cfg, none, Reserve(start, tenant, cfg.limit, first), true).0 == none + [row];
    AppendNil([row]);
    OneRow(row, now - cfg.window);
  }

  lemma OneRow(row: Row, horizon: real)
    requires row.createdAt > horizon
    ensures Evict([row], horizon) == [row] && Live([row], row.tenant, horizon) == [row]
    ensures Total([row]) == row.tokens && ByTime([row]) == [row]
  {
    var rest := [row][1..];
    assert |rest| == 0;
    AppendNil([row]);
  }

  /** A refusal whose header is early: a window of sixty seconds filled at time zero, asked again at 54.9995. */
  lemma HeaderCanBeEarly(tenant: string)
    ensures var cfg := Config(10, 60.0);
            var rows := Step(cfg, [], Reserve(0.0, tenant, 10, "a"), true).0;
            Step(cfg, rows, Reserve(54.9995, tenant, 10, "b"), true).1 == Refused(10, 5.0005)
    ensures HeaderSeconds(5.0005) == 5
  {
    EveryWaitOccurs(Config(10, 60.0), tenant, 0.0, 5.0005, "a", "b");
    assert (5.9995).Floor == 5;
  }
}

/**
 * What an accepted arbitration command promises: the schedule, its end, its latencies and its independence of input
 * order.
 */
module BatchTheorems {
  import opened Basics
  import opened Schemas
  import opened CanTiming
  import opened Store
  import opened Rounding
  import opened Scheduling
  import opened Arbitration
  import opened ArbitrationService

  // ---------- occupied time ----------

  lemma {:induction false} OccupiedCons(s: Slot, rest: seq<Slot>)
    requires RunForward([s] + rest)
    ensures RunForward(rest) && Occupied([s] + rest) == (s.end - s.start) + Occupied(rest)
  {
    assert forall i :: 0 <= i < |rest| ==> rest[i] == ([s] + rest)[i + 1];
    if rest == [] {
      assert ([s] + rest)[..0] == [];
    } else {
      var last := |rest| - 1;
      assert ([s] + rest)[..|rest|] == [s] + rest[..last];
      assert forall i :: 0 <= i < |rest| ==> ([s] + rest[..last])[i] == ([s] + rest)[i];
      OccupiedCons(s, rest[..last]);
    }
  }

  lemma {:induction false} OccupiedIsWork(d: Discipline, cost: CostModel, S: set<Contender>, clock: nat,
                                          slots: seq<Slot>)
    requires Chain(d, cost, S, clock, slots)
    ensures RunForward(slots) && Occupied(slots) == Work(cost, S)
    decreases |slots|
  {
    if slots != [] {
      var s, rest := slots[0], slots[1..];
      OccupiedIsWork(d, cost, S - {s.who}, s.end, rest);
      assert slots == [s] + rest;
      OccupiedCons(s, rest);
      WorkRemove(cost, S, s.who);
    }
  }

  // ---------- the command ----------

  /** The resolved contenders of an accepted batch. */
  ghost function ContendersOf(n: Net, c: ArbitrationCommand): set<Contender>
    requires c.Valid() && ResolveUpTo(n, c.contenders, |c.contenders|).Ok?
  {
    Elements(ResolveUpTo(n, c.contenders, |c.contenders|).value)
  }

  lemma BatchCorrect(n: Net, c: ArbitrationCommand)
    requires c.Valid() && ResolveUpTo(n, c.contenders, |c.contenders|).Ok?
    ensures var S, slots := ContendersOf(n, c), BatchSlots(n, c);
            && Correct(CostOf(n.rates), S, n.time, slots) && Chain(LeastKey, CostOf(n.rates), S, n.time, slots)
            && S != {} && DistinctContracts(S) && |slots| == |c.contenders|
            && forall x :: x in S ==> n.time <= x.readyAt
  {
    hide ResolveUpTo;
    hide Schedule;
    var cs := ResolveUpTo(n, c.contenders, |c.contenders|).value;
    ResolvedDistinct(n, c);
    ElementsDistinct(cs);
    ScheduleIsChain(n.rates, cs, n.time);
    ScheduleIsTheCorrectOne(n.rates, cs, n.time, Schedule(n.rates, cs, n.time));
    assert cs[0] in Elements(cs);
  }

  /** The recorded result of the batch. */
  ghost predicate Reports(n: Net, c: ArbitrationCommand, slots: seq<Slot>, row: Row)
    requires slots != [] && RunForward(slots)
  {
    && row.ArbitrationRow? && row.frames == FramesOf(n, slots) && row.utilization == UtilizationOf(n, slots)
  }

  lemma BatchReports(l: Ledger, c: ArbitrationCommand)
    requires c.Valid() && ExecuteArbitration(l, c).outcome.Done?
    ensures ResolveUpTo(l.net, c.contenders, |c.contenders|).Ok?
    ensures Reports(l.net, c, BatchSlots(l.net, c), ExecuteArbitration(l, c).outcome.row)
    ensures ExecuteArbitration(l, c).ledger.net.time == EndOf(l.net.time, BatchSlots(l.net, c))
  {}

  /**
   * The window: it starts at the current time, its occupied time is exactly the frame times of the
   * contenders and the rest is idle; it ends at the maximum, over the ready times t, of t plus the frame
   * times that become ready from t on, and no non-overlapping way of sending the frames ends earlier. The
   * utilization is the rounded share of the occupied time, which is never divided by zero.
   */
  lemma WindowExact(l: Ledger, c: ArbitrationCommand, other: seq<Slot>)
    requires c.Valid() && ExecuteArbitration(l, c).outcome.Done?
    ensures ResolveUpTo(l.net, c.contenders, |c.contenders|).Ok?
    ensures var S, cost := ContendersOf(l.net, c), CostOf(l.net.rates);
            var row := ExecuteArbitration(l, c).outcome.row;
            && row.ArbitrationRow?
            && var u := row.utilization;
            && u.windowStart == l.net.time && ExecuteArbitration(l, c).ledger.net.time == u.windowEnd
            && u.occupied == Work(cost, S) > 0 && u.occupied + u.idle == u.windowEnd - u.windowStart && u.idle >= 0
            && u.percent == Round4(100.0 * u.occupied as real / (u.windowEnd - u.windowStart) as real)
            && 0.0 <= u.percent <= 100.0
            && (forall x :: x in S ==> x.readyAt + Work(cost, ReadyFrom(S, x.readyAt)) <= u.windowEnd)
            && (exists x :: x in S && u.windowEnd == x.readyAt + Work(cost, ReadyFrom(S, x.readyAt)))
            && (Feasible(cost, S, l.net.time, other) ==> u.windowEnd <= EndOf(l.net.time, other))
  {
    hide *;
    BatchReports(l, c);
    BatchCorrect(l.net, c);
    var S, cost, slots := ContendersOf(l.net, c), CostOf(l.net.rates), BatchSlots(l.net, c);
    CorrectConserves(cost, S, l.net.time, slots);
    MakespanClosedForm(cost, S, l.net.time, slots);
    UtilizationExact(l.net, c, S, slots, ExecuteArbitration(l, c).outcome.row);
    if Feasible(cost, S, l.net.time, other) {
      MakespanOptimal(cost, S, l.net.time, slots, other);
    }
  }

  lemma CorrectConserves(cost: CostModel, S: set<Contender>, clock: nat, slots: seq<Slot>)
    requires Correct(cost, S, clock, slots)
    ensures WorkConserving(cost, S, clock, slots)
  {}

  lemma UtilizationExact(n: Net, c: ArbitrationCommand, S: set<Contender>, slots: seq<Slot>, row: Row)
    requires slots != [] && RunForward(slots) && Reports(n, c, slots, row)
    requires S != {} && Chain(LeastKey, CostOf(n.rates), S, n.time, slots)
    ensures row.ArbitrationRow?
    ensures var u := row.utilization;
            && u.windowStart == n.time && u.windowEnd == EndOf(n.time, slots)
            && u.occupied == Work(CostOf(n.rates), S) > 0
            && u.occupied + u.idle == u.windowEnd - u.windowStart && u.idle >= 0
            && u.percent == Round4(100.0 * u.occupied as real / (u.windowEnd - u.windowStart) as real)
            && 0.0 <= u.percent <= 100.0
  {
    hide FramesOf;
    hide MaximumLatency;
    hide Occupied;
    hide Chain;
    hide Round4;
    hide Work;
    hide FreeSince;
    var cost := CostOf(n.rates);
    OccupiedIsWork(LeastKey, cost, S, n.time, slots);
    WindowCoversWork(cost, S, n.time, slots);
    BusyWork(n.rates, S);
    RoundedPercent(Work(cost, S), EndOf(n.time, slots) - n.time);
  }

  /** Every frame takes time, so the window is never empty and the reported utilization never divides by zero. */
  lemma BusyWork(r: Rates, S: set<Contender>)
    requires S != {}
    ensures Work(CostOf(r), S) > 0
  {
    var c :| c in S;
    DurationPositive(c.contract, r);
    WorkRemove(CostOf(r), S, c);
    hide Duration;
  }

  lemma WindowCoversWork(cost: CostModel, S: set<Contender>, clock: nat, slots: seq<Slot>)
    requires Chain(LeastKey, cost, S, clock, slots)
    ensures clock + Work(cost, S) <= EndOf(clock, slots)
  {
    if S != {} {
      StricterChain(LeastKey, AnyOrder, cost, S, clock, slots);
      assert ReadyFrom(S, 0) == S;
      FinishLowerBound(cost, S, clock, slots, 0);
    } else {
      assert slots == [] by { ChainIsFeasible(LeastKey, cost, S, clock, slots); }
    }
  }

  /** The frame belongs to a contender of S and took at most that contender's longest wait plus its own frame time. */
  ghost predicate WithinBound(cost: CostModel, S: set<Contender>, f: ArbitratedFrame) {
    exists x :: x in S && f.contract == x.contract && f.readyAt == x.readyAt
           && LatencyOf(f) <= MaximumWait(cost, S, x) + cost(x)
  }

  /**
   * Every reported latency is bounded by priorities and frame times alone, and the reported maximum latency is
   * the latency of some frame and at least that of every frame.
   */
  lemma LatencyBounded(l: Ledger, c: ArbitrationCommand)
    requires c.Valid() && ExecuteArbitration(l, c).outcome.Done?
    ensures ResolveUpTo(l.net, c.contenders, |c.contenders|).Ok?
    ensures var S, cost := ContendersOf(l.net, c), CostOf(l.net.rates);
            var row := ExecuteArbitration(l, c).outcome.row;
            && row.ArbitrationRow?
            && (forall k :: 0 <= k < |row.frames| ==>
                  WithinBound(cost, S, row.frames[k]) && LatencyOf(row.frames[k]) <= row.utilization.maximumLatency)
            && (exists k :: 0 <= k < |row.frames| && LatencyOf(row.frames[k]) == row.utilization.maximumLatency)
  {
    hide *;
    BatchReports(l, c);
    BatchCorrect(l.net, c);
    var S, cost, slots := ContendersOf(l.net, c), CostOf(l.net.rates), BatchSlots(l.net, c);
    ReportedLatencies(l.net, c, slots, ExecuteArbitration(l, c).outcome.row);
    forall k | 0 <= k < |slots| ensures WithinBound(cost, S, FrameOf(l.net, slots[k], k)) {
      SlotLatency(l.net, cost, S, slots, k);
    }
  }

  lemma ReportedLatencies(n: Net, c: ArbitrationCommand, slots: seq<Slot>, row: Row)
    requires slots != [] && RunForward(slots) && Reports(n, c, slots, row)
    ensures row.ArbitrationRow? && |row.frames| == |slots|
    ensures forall k :: 0 <= k < |slots| ==> row.frames[k] == FrameOf(n, slots[k], k)
    ensures forall k :: 0 <= k < |slots| ==> LatencyOf(row.frames[k]) <= row.utilization.maximumLatency
    ensures exists k :: 0 <= k < |slots| && LatencyOf(row.frames[k]) == row.utilization.maximumLatency
  {
    hide FrameOf;
    hide MaximumLatency;
    hide LatencyOf;
    hide Occupied;
  }

  lemma SlotLatency(n: Net, cost: CostModel, S: set<Contender>, slots: seq<Slot>, k: nat)
    requires DistinctContracts(S) && Correct(cost, S, n.time, slots) && k < |slots|
    requires forall x :: x in S ==> n.time <= x.readyAt
    ensures WithinBound(cost, S, FrameOf(n, slots[k], k))
  {
    hide MaximumWait;
    hide NeverIdleWithWork;
    hide ByPriority;
    ServedExactlyOnce(cost, S, n.time, slots);
    ResponseTimeBound(cost, S, n.time, slots, k);
    assert slots[k].who in S;
  }

  // ---------- input order ----------

  ghost predicate SameContenders(a: seq<ContenderRequest>, b: seq<ContenderRequest>) {
    forall x :: x in a <==> x in b
  }

  lemma ResolvedSame(n: Net, a: seq<ContenderRequest>, b: seq<ContenderRequest>)
    requires SameContenders(a, b)
    requires ResolveUpTo(n, a, |a|).Ok?
    ensures ResolveUpTo(n, b, |b|).Ok?
    ensures forall x :: x in ResolveUpTo(n, a, |a|).value ==> x in ResolveUpTo(n, b, |b|).value
  {
    hide Resolve;
    ResolvedContenders(n, a, |a|);
    ResolvedContenders(n, b, |b|);
    forall i | 0 <= i < |b| ensures Resolve(n, b[i]).Ok? {
      assert b[i] in a;
    }
    forall x | x in ResolveUpTo(n, a, |a|).value ensures x in ResolveUpTo(n, b, |b|).value {
      var i :| 0 <= i < |a| && ResolveUpTo(n, a, |a|).value[i] == x;
      assert a[i] in b;
      var j :| 0 <= j < |b| && b[j] == a[i];
      assert Resolve(n, b[j]) == Ok(x);
    }
  }

  lemma SlotsSame(n: Net, c: ArbitrationCommand, d: ArbitrationCommand)
    requires c.Valid() && d.Valid() && SameContenders(c.contenders, d.contenders)
    requires ResolveUpTo(n, c.contenders, |c.contenders|).Ok?
    ensures ResolveUpTo(n, d.contenders, |d.contenders|).Ok?
    ensures BatchSlots(n, c) == BatchSlots(n, d)
  {
    ResolvedSame(n, c.contenders, d.contenders);
    ResolvedSame(n, d.contenders, c.contenders);
    ResolvedDistinct(n, c);
    ResolvedDistinct(n, d);
    hide ResolveUpTo;
    hide Schedule;
    ScheduleIgnoresInputOrder(n.rates, ResolveUpTo(n, c.contenders, |c.contenders|).value,
                              ResolveUpTo(n, d.contenders, |d.contenders|).value, n.time);
  }

  /** Listing the contenders in another order changes neither acceptance nor any frame, payload, time or number. */
  lemma InputOrderIrrelevant(l: Ledger, c: ArbitrationCommand, d: ArbitrationCommand)
    requires c.Valid() && d.Valid() && SameContenders(c.contenders, d.contenders)
    requires c.commandId == d.commandId && c.expectedVersion == d.expectedVersion
    requires Find(l.rows, Arbitrations, c.commandId).None?
    requires ExecuteArbitration(l, c).outcome.Done?
    ensures var x, y := ExecuteArbitration(l, c), ExecuteArbitration(l, d);
            && y.outcome.Done? && y.ledger.net == x.ledger.net
            && x.outcome.row.ArbitrationRow? && y.outcome.row == x.outcome.row.(arbitration := d)
            && y.ledger.rows[|l.rows| + 1..] == x.ledger.rows[|l.rows| + 1..]
  {
    hide ResolveUpTo;
    hide BatchSlots;
    hide FramesOf;
    hide UtilizationOf;
    hide AnyRecorded;
    hide Find;
    SlotsSame(l.net, c, d);
    var slots := BatchSlots(l.net, c);
    assert TransmissionsOf(l.net, c, slots) == TransmissionsOf(l.net, d, slots);
    var added := TransmissionsOf(l.net, c, slots);
    hide TransmissionsOf;
    RowsAfter(l.rows, ExecuteArbitration(l, c).outcome.row, added);
    RowsAfter(l.rows, ExecuteArbitration(l, d).outcome.row, added);
  }

  lemma RowsAfter(rows: seq<Row>, row: Row, added: seq<Row>)
    ensures (rows + ([row] + added))[|rows| + 1..] == added
  {}
}

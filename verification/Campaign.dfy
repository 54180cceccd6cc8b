/** Multi-bus campaigns: many route steps as one versioned command, with fault scenarios and accounting. */
module Campaign {
  import opened Basics
  import opened Schemas
  import opened Store
  import opened MultiBus
  import opened Rounding

  // ---------- preparing every step before anything changes ----------

  datatype Prepared = Prepared(route: Route, target: Target)

  function PrepareStep(n: Net, step: CampaignStep): Result<Prepared, Error> {
    match FindRoute(n.routes, step.routeId)
    case None => Err(InvalidStepRoute(step.identifier))
    case Some(route) =>
      match Destination(n, route)
      case Err(e) => Err(if e == UnknownDestination then InvalidStepRoute(step.identifier) else e)
      case Ok(target) =>
        if |step.payload| != target.payloadLength then Err(InvalidStepPayload(step.identifier))
        else Ok(Prepared(route, target))
  }

  function PrepareUpTo(n: Net, steps: seq<CampaignStep>, k: nat): (r: Result<seq<Prepared>, Error>)
    requires k <= |steps|
    ensures r.Ok? ==> |r.value| == k
  {
    if k == 0 then Ok([]) else
      match PrepareUpTo(n, steps, k - 1)
      case Err(e) => Err(e)
      case Ok(acc) =>
        match PrepareStep(n, steps[k - 1])
        case Err(e) => Err(e)
        case Ok(p) => Ok(acc + [p])
  }

  function Prepare(n: Net, steps: seq<CampaignStep>): (r: Result<seq<Prepared>, Error>)
    ensures r.Ok? ==> |r.value| == |steps|
  {
    PrepareUpTo(n, steps, |steps|)
  }

  lemma {:induction false} PrepareErrorStays(n: Net, steps: seq<CampaignStep>, j: nat, k: nat)
    requires j <= k <= |steps| && PrepareUpTo(n, steps, j).Err?
    ensures PrepareUpTo(n, steps, k) == PrepareUpTo(n, steps, j)
    decreases k
  {
    if j < k {
      PrepareErrorStays(n, steps, j, k - 1);
    }
  }

  lemma {:induction false} PreparedSteps(n: Net, steps: seq<CampaignStep>, k: nat)
    requires k <= |steps|
    ensures PrepareUpTo(n, steps, k).Ok? <==> forall i :: 0 <= i < k ==> PrepareStep(n, steps[i]).Ok?
    ensures PrepareUpTo(n, steps, k).Ok? ==>
            forall i :: 0 <= i < k ==> PrepareStep(n, steps[i]) == Ok(PrepareUpTo(n, steps, k).value[i])
  {
    hide PrepareStep;
    if k > 0 {
      PreparedSteps(n, steps, k - 1);
    }
  }

  method PrepareAll(n: Net, steps: seq<CampaignStep>) returns (r: Result<seq<Prepared>, Error>)
    ensures r == Prepare(n, steps)
  {
    var prepared: seq<Prepared> := [];
    for k := 0 to |steps|
      invariant PrepareUpTo(n, steps, k) == Ok(prepared)
    {
      var step := PrepareStep(n, steps[k]);
      if step.Err? {
        PrepareErrorStays(n, steps, k + 1, |steps|);
        return Err(step.error);
      }
      prepared := prepared + [step.value];
    }
    return Ok(prepared);
  }

  // ---------- running the steps ----------

  /** Everything the campaign loop updates. */
  datatype Totals = Totals(
    time: nat,
    nextSequence: nat,
    occupied: nat,
    idle: nat,
    delivered: nat,
    failed: nat,
    violations: nat,
    protocolCounts: map<BusProtocol, nat>,
    latencies: seq<nat>,
    traces: seq<Trace>)

  function NoCounts(): map<BusProtocol, nat> {
    map[Can := 0, Lin := 0, Ethernet := 0]
  }

  function CountOf(counts: map<BusProtocol, nat>, p: BusProtocol): nat {
    if p in counts then counts[p] else 0
  }

  function Start(n: Net): Totals {
    Totals(n.time, n.nextSequence, 0, 0, 0, 0, 0, NoCounts(), [], [])
  }

  predicate Sends(step: CampaignStep) {
    !step.fault.GatewayUnavailable?
  }

  predicate ExceedsBudget(step: CampaignStep, duration: nat) {
    step.latencyBudget.Some? && duration > step.latencyBudget.value
  }

  function OutcomeOf(step: CampaignStep, duration: nat): StepOutcome {
    if !step.fault.NoFault? then Failed(step.fault)
    else if ExceedsBudget(step, duration) then PerformanceViolation
    else Delivered
  }

  function TraceOf(t: Totals, step: CampaignStep, p: Prepared): Trace {
    var duration := if Sends(step) then p.target.duration else 0;
    var started := t.time + step.advance;
    Trace(|t.traces| + 1, step.identifier, p.route, p.target.payloadLength, step.fault, OutcomeOf(step, duration),
          ExceedsBudget(step, duration), if Sends(step) then Some(t.nextSequence) else None,
          started, started + duration, duration, if Sends(step) then Some(p.target.timing) else None)
  }

  function After(t: Totals, step: CampaignStep, p: Prepared): Totals {
    var trace := TraceOf(t, step, p);
    var protocol := p.route.destinationProtocol;
    Totals(
      trace.completedAt,
      t.nextSequence + (if Sends(step) then 1 else 0),
      t.occupied + trace.duration,
      t.idle + step.advance,
      t.delivered + (if step.fault.NoFault? then 1 else 0),
      t.failed + (if step.fault.NoFault? then 0 else 1),
      t.violations + (if trace.budgetExceeded then 1 else 0),
      t.protocolCounts[protocol := CountOf(t.protocolCounts, protocol) + 1],
      if Sends(step) then t.latencies + [trace.duration] else t.latencies,
      t.traces + [trace])
  }

  function RunUpTo(n: Net, steps: seq<CampaignStep>, prepared: seq<Prepared>, k: nat): Totals
    requires |prepared| == |steps| && k <= |steps|
  {
    if k == 0 then Start(n) else After(RunUpTo(n, steps, prepared, k - 1), steps[k - 1], prepared[k - 1])
  }

  // ---------- percentiles ----------

  function InsertSorted(x: nat, s: seq<nat>): seq<nat> {
    if s == [] || x <= s[0] then [x] + s else [s[0]] + InsertSorted(x, s[1..])
  }

  /** `sorted(values)` */
  function Sorted(s: seq<nat>): seq<nat> {
    if s == [] then [] else InsertSorted(s[0], Sorted(s[1..]))
  }

  ghost predicate Ascending(s: seq<nat>) {
    forall i, j :: 0 <= i < j < |s| ==> s[i] <= s[j]
  }

  lemma {:induction false} InsertSortedSorts(x: nat, s: seq<nat>)
    requires Ascending(s)
    ensures Ascending(InsertSorted(x, s))
    ensures |InsertSorted(x, s)| == |s| + 1
    ensures forall y :: y in InsertSorted(x, s) <==> y == x || y in s
  {
    if s != [] {
      assert s == [s[0]] + s[1..];
      if x > s[0] {
        InsertSortedSorts(x, s[1..]);
        var rest := InsertSorted(x, s[1..]);
        forall j | 0 <= j < |rest| ensures s[0] <= rest[j] {
          assert rest[j] in rest;
        }
      }
    }
  }

  lemma {:induction false} SortedSorts(s: seq<nat>)
    ensures Ascending(Sorted(s))
    ensures |Sorted(s)| == |s|
    ensures forall y :: y in Sorted(s) <==> y in s
  {
    if s != [] {
      SortedSorts(s[1..]);
      InsertSortedSorts(s[0], Sorted(s[1..]));
      assert s == [s[0]] + s[1..];
    }
  }

  /** The nearest-rank 95th percentile; 0 without values. */
  function Percentile95(values: seq<nat>): nat {
    if values == [] then 0 else
      var ordered := Sorted(values);
      SortedSorts(values);
      CeilDivIsLeast(95 * |values|, 100, |values|);
      CeilDivIsLeast(95 * |values|, 100, 0);
      ordered[CeilDiv(95 * |values|, 100) - 1]
  }

  /** How many of the values are at most x. */
  function CountAtMost(values: seq<nat>, x: nat): nat {
    if values == [] then 0 else (if values[0] <= x then 1 else 0) + CountAtMost(values[1..], x)
  }

  /** How many of the values are below x. */
  function CountBelow(values: seq<nat>, x: nat): nat {
    if x == 0 then 0 else CountAtMost(values, x - 1)
  }

  lemma {:induction false} CountInsert(y: nat, s: seq<nat>, x: nat)
    ensures CountAtMost(InsertSorted(y, s), x) == CountAtMost(s, x) + (if y <= x then 1 else 0)
  {
    if s != [] && y > s[0] {
      CountInsert(y, s[1..], x);
      assert InsertSorted(y, s)[1..] == InsertSorted(y, s[1..]);
    } else {
      assert InsertSorted(y, s)[1..] == s;
    }
  }

  lemma {:induction false} CountSorted(s: seq<nat>, x: nat)
    ensures CountAtMost(Sorted(s), x) == CountAtMost(s, x)
  {
    if s != [] {
      CountSorted(s[1..], x);
      CountInsert(s[0], Sorted(s[1..]), x);
    }
  }

  /** In ascending order, the values at most x form a prefix. */
  lemma {:induction false} CountAscending(s: seq<nat>, x: nat, k: nat)
    requires Ascending(s) && k <= |s|
    requires forall i :: 0 <= i < k ==> s[i] <= x
    ensures k <= CountAtMost(s, x) <= |s|
    ensures (forall i :: k <= i < |s| ==> x < s[i]) ==> CountAtMost(s, x) == k
  {
    if s != [] {
      if k > 0 {
        CountAscending(s[1..], x, k - 1);
        assert forall i :: 0 < i < |s| ==> s[i] == s[1..][i - 1];
      } else {
        CountAscending(s[1..], x, 0);
        assert forall i :: 0 < i < |s| ==> s[i] == s[1..][i - 1];
      }
    }
  }

  /**
   * The reported percentile is one of the latencies, at least 95% of them are at most it, and fewer than
   * 95% are below it: it is the nearest-rank 95th percentile and no other value is.
   */
  lemma PercentileIsNearestRank(values: seq<nat>)
    requires values != []
    ensures var p := Percentile95(values);
            && p in values
            && 95 * |values| <= 100 * CountAtMost(values, p)
            && 100 * CountBelow(values, p) < 95 * |values|
  {
    hide CeilDiv;
    hide CountAtMost;
    hide CountBelow;
    var rank := CeilDiv(95 * |values|, 100);
    SortedSorts(values);
    NearestRank(|values|);
    RankCounts(values, rank, Sorted(values)[rank - 1]);
  }

  /** The value of a rank in sorted order: that many values are at most it, and fewer are below it. */
  lemma RankCounts(values: seq<nat>, rank: nat, p: nat)
    requires 1 <= rank <= |Sorted(values)| && p == Sorted(values)[rank - 1]
    ensures p in values && rank <= CountAtMost(values, p) && CountBelow(values, p) < rank
  {
    var ordered := Sorted(values);
    SortedSorts(values);
    assert p in ordered;
    CountAscending(ordered, p, rank);
    CountSorted(values, p);
    if p > 0 {
      CountBelowRank(ordered, p, rank - 1);
      CountSorted(values, p - 1);
    }
  }

  lemma NearestRank(n: nat)
    requires n > 0
    ensures var rank := CeilDiv(95 * n, 100);
            1 <= rank <= n && 100 * (rank - 1) < 95 * n <= 100 * rank
  {
    CeilDivBounds(95 * n, 100);
  }

  lemma {:induction false} CountBelowRank(s: seq<nat>, p: nat, k: nat)
    requires Ascending(s) && k < |s| && s[k] == p && p > 0
    ensures CountAtMost(s, p - 1) <= k
  {
    if k > 0 {
      CountBelowRank(s[1..], p, k - 1);
    } else {
      CountAscending(s, p - 1, 0);
    }
  }

  /** `max(values, default=0)` */
  function Largest(values: seq<nat>): nat {
    if values == [] then 0 else Max(values[0], Largest(values[1..]))
  }

  lemma {:induction false} LargestBounds(values: seq<nat>)
    ensures forall x :: x in values ==> x <= Largest(values)
    ensures values != [] ==> Largest(values) in values
  {
    if values != [] {
      LargestBounds(values[1..]);
      assert values == [values[0]] + values[1..];
    }
  }

  // ---------- the command ----------

  function StatusOf(t: Totals): CampaignStatus {
    if t.failed > 0 then CampaignFailed else if t.violations > 0 then PerformanceDegraded else Passed
  }

  function ResultOf(n: Net, steps: seq<CampaignStep>, t: Totals): CampaignResult {
    CampaignResult(StatusOf(t), |steps|, t.delivered, t.failed, t.violations, t.protocolCounts, n.time, t.time,
                   t.time - n.time, t.occupied, t.idle, Round6(Percent(t.occupied, t.time - n.time)),
                   Largest(t.latencies), Percentile95(t.latencies), t.traces)
  }

  function ExecuteCampaign(l: Ledger, c: CampaignCommand): Applied {
    match Find(l.rows, Campaigns, c.commandId)
    case Some(row) =>
      if row.CampaignRow? && row.campaign == c then Applied(l, Replayed(row)) else Reject(l, CampaignCommandConflict)
    case None =>
      var n := l.net;
      if c.expectedVersion != n.version then Reject(l, VersionConflict(n.version)) else
        match Prepare(n, c.steps)
        case Err(e) => Reject(l, e)
        case Ok(prepared) =>
          var t := RunUpTo(n, c.steps, prepared, |c.steps|);
          var row := CampaignRow(c.commandId, c, ResultOf(n, c.steps, t), n.version, n.version + 1);
          Record(l, n.(time := t.time, nextSequence := t.nextSequence, version := n.version + 1), [row], row)
  }

  method ExecuteMultibusCampaign(session: Session, network: CanNetwork, c: CampaignCommand) returns (outcome: Outcome)
    modifies session, network
    ensures Applied(Snapshot(network, session), outcome) == ExecuteCampaign(old(Snapshot(network, session)), c)
  {
    hide Prepare;
    hide RunUpTo;
    hide Percentile95;
    hide Largest;
    hide Find;
    var existing := Find(session.rows, Campaigns, c.commandId);
    if existing.Some? {
      return if existing.value.CampaignRow? && existing.value.campaign == c
        then Replayed(existing.value) else Rejected(CampaignCommandConflict);
    }
    if c.expectedVersion != network.version {
      return Rejected(VersionConflict(network.version));
    }
    var prepared := PrepareAll(network.View(), c.steps);
    if prepared.Err? {
      return Rejected(prepared.error);
    }
    var startedAt := network.simulationTime;
    ghost var n := network.View();
    var t := RunSteps(network, c.steps, prepared.value);
    var previousVersion := network.version;
    network.version := network.version + 1;
    var status := if t.failed > 0 then CampaignFailed else if t.violations > 0 then PerformanceDegraded else Passed;
    var result := CampaignResult(
      status, |c.steps|, t.delivered, t.failed, t.violations, t.protocolCounts, startedAt, network.simulationTime,
      network.simulationTime - startedAt, t.occupied, t.idle,
      Round6(Percent(t.occupied, network.simulationTime - startedAt)),
      Largest(t.latencies), Percentile95(t.latencies), t.traces);
    var row := CampaignRow(c.commandId, c, result, previousVersion, network.version);
    session.Add(row);
    return Done(row);
  }

  /** The campaign loop: advances the network's clock and sequence in place, step by step. */
  method RunSteps(network: CanNetwork, steps: seq<CampaignStep>, prepared: seq<Prepared>) returns (t: Totals)
    requires |prepared| == |steps|
    modifies network
    ensures t == RunUpTo(old(network.View()), steps, prepared, |steps|)
    ensures network.View() == old(network.View()).(time := t.time, nextSequence := t.nextSequence)
  {
    t := Totals(network.simulationTime, network.nextSequence, 0, 0, 0, 0, 0, NoCounts(), [], []);
    for k := 0 to |steps|
      invariant t == RunUpTo(old(network.View()), steps, prepared, k)
      invariant network.View() == old(network.View()).(time := t.time, nextSequence := t.nextSequence)
    {
      t := RunStep(network, t, steps[k], prepared[k]);
    }
  }

  /** The body of the campaign loop; `t` holds the loop's counters, latencies and traces. */
  method RunStep(network: CanNetwork, t: Totals, step: CampaignStep, prepared: Prepared) returns (after: Totals)
    requires t.time == network.simulationTime && t.nextSequence == network.nextSequence
    modifies network
    ensures after == After(t, step, prepared)
    ensures network.View() == old(network.View()).(time := after.time, nextSequence := after.nextSequence)
  {
    var route, target := prepared.route, prepared.target;
    var protocol := route.destinationProtocol;
    var occupied, delivered, failed := t.occupied, t.delivered, t.failed;
    var violations, latencies := t.violations, t.latencies;
    var startedAt := network.simulationTime + step.advance;
    var sequence: Option<nat> := None;
    var duration: nat := 0;
    var outcome := Delivered;
    if step.fault.GatewayUnavailable? {
      outcome := Failed(step.fault);
      failed := failed + 1;
    } else {
      sequence := Some(network.nextSequence);
      network.nextSequence := network.nextSequence + 1;
      duration := target.duration;
      occupied := occupied + duration;
      latencies := latencies + [duration];
      if step.fault.LostFrame? {
        outcome := Failed(step.fault);
        failed := failed + 1;
      } else {
        delivered := delivered + 1;
      }
    }
    var budgetExceeded := step.latencyBudget.Some? && duration > step.latencyBudget.value;
    if budgetExceeded {
      violations := violations + 1;
      if outcome == Delivered {
        outcome := PerformanceViolation;
      }
    }
    network.simulationTime := startedAt + duration;
    var trace := Trace(|t.traces| + 1, step.identifier, route, target.payloadLength, step.fault, outcome,
                       budgetExceeded, sequence, startedAt, startedAt + duration, duration,
                       if sequence.None? then None else Some(target.timing));
    after := Totals(network.simulationTime, network.nextSequence, occupied, t.idle + step.advance, delivered, failed,
                    violations, t.protocolCounts[protocol := CountOf(t.protocolCounts, protocol) + 1], latencies,
                    t.traces + [trace]);
  }
}

/** What a campaign's totals mean, and that a campaign is its routes executed one after the other. */
module CampaignTheorems {
  import opened Basics
  import opened Schemas
  import opened Store
  import opened MultiBus
  import opened Campaign
  import opened Rounding

  // ---------- accounting ----------

  function FailedTraces(traces: seq<Trace>): nat {
    if traces == [] then 0 else
      var last := traces[|traces| - 1];
      FailedTraces(traces[..|traces| - 1]) + (if last.outcome.Failed? then 1 else 0)
  }

  function ExceededTraces(traces: seq<Trace>): nat {
    if traces == [] then 0 else
      var last := traces[|traces| - 1];
      ExceededTraces(traces[..|traces| - 1]) + (if last.budgetExceeded then 1 else 0)
  }

  function ProtocolTraces(traces: seq<Trace>, p: BusProtocol): nat {
    if traces == [] then 0 else
      var last := traces[|traces| - 1];
      ProtocolTraces(traces[..|traces| - 1], p) + (if last.route.destinationProtocol == p then 1 else 0)
  }

  function TotalDuration(traces: seq<Trace>): nat {
    if traces == [] then 0 else TotalDuration(traces[..|traces| - 1]) + traces[|traces| - 1].duration
  }

  /** The durations of the traces that were given a sequence number. */
  function SentDurations(traces: seq<Trace>): seq<nat> {
    if traces == [] then [] else
      var last := traces[|traces| - 1];
      SentDurations(traces[..|traces| - 1]) + (if last.sequence.Some? then [last.duration] else [])
  }

  lemma {:induction false} NoneFailed(traces: seq<Trace>)
    ensures FailedTraces(traces) == 0 <==> forall i :: 0 <= i < |traces| ==> !traces[i].outcome.Failed?
    ensures ExceededTraces(traces) == 0 <==> forall i :: 0 <= i < |traces| ==> !traces[i].budgetExceeded
  {
    if traces != [] {
      var rest := traces[..|traces| - 1];
      NoneFailed(rest);
      assert forall i :: 0 <= i < |rest| ==> traces[i] == rest[i];
    }
  }

  /** Each counter of the campaign loop counts, or sums, exactly the traces it names. */
  ghost predicate Counted(n: Net, t: Totals) {
    && t.failed == FailedTraces(t.traces)
    && t.delivered + t.failed == |t.traces|
    && t.violations == ExceededTraces(t.traces)
    && t.occupied == TotalDuration(t.traces)
    && t.latencies == SentDurations(t.traces)
    && t.time == n.time + t.occupied + t.idle
    && t.nextSequence == n.nextSequence + |t.latencies|
  }

  lemma CountedStep(n: Net, t: Totals, step: CampaignStep, p: Prepared)
    requires Counted(n, t)
    ensures Counted(n, After(t, step, p)) && |After(t, step, p).traces| == |t.traces| + 1
  {}

  lemma {:induction false} TotalsCountTraces(n: Net, steps: seq<CampaignStep>, prepared: seq<Prepared>, k: nat)
    requires |prepared| == |steps| && k <= |steps|
    ensures var t := RunUpTo(n, steps, prepared, k);
            |t.traces| == k && Counted(n, t)
  {
    if k > 0 {
      TotalsCountTraces(n, steps, prepared, k - 1);
      CountedStep(n, RunUpTo(n, steps, prepared, k - 1), steps[k - 1], prepared[k - 1]);
    }
  }

  lemma ProtocolCountStep(t: Totals, step: CampaignStep, p: Prepared, q: BusProtocol)
    requires CountOf(t.protocolCounts, q) == ProtocolTraces(t.traces, q)
    ensures var after := After(t, step, p);
            CountOf(after.protocolCounts, q) == ProtocolTraces(after.traces, q)
  {}

  lemma {:induction false} ProtocolCount(n: Net, steps: seq<CampaignStep>, prepared: seq<Prepared>, k: nat,
                                         p: BusProtocol)
    requires |prepared| == |steps| && k <= |steps|
    ensures var t := RunUpTo(n, steps, prepared, k);
            CountOf(t.protocolCounts, p) == ProtocolTraces(t.traces, p)
  {
    if k > 0 {
      ProtocolCount(n, steps, prepared, k - 1, p);
      ProtocolCountStep(RunUpTo(n, steps, prepared, k - 1), steps[k - 1], prepared[k - 1], p);
    }
  }

  lemma {:induction false} ProtocolTracesAddUp(traces: seq<Trace>)
    ensures ProtocolTraces(traces, Can) + ProtocolTraces(traces, Lin) + ProtocolTraces(traces, Ethernet) == |traces|
  {
    if traces != [] {
      ProtocolTracesAddUp(traces[..|traces| - 1]);
    }
  }

  /** When trace i could begin: the end of its predecessor, or the start of the campaign. */
  function PreviousEnd(n: Net, traces: seq<Trace>, i: nat): nat
    requires i <= |traces|
  {
    if i == 0 then n.time else traces[i - 1].completedAt
  }

  /** Trace i starts the step's advance after its predecessor ends, and takes the time and outcome of the step. */
  ghost predicate TraceFits(n: Net, step: CampaignStep, p: Prepared, traces: seq<Trace>, i: nat)
    requires i < |traces|
  {
    var trace := traces[i];
    && trace.step == i + 1
    && trace.startedAt == PreviousEnd(n, traces, i) + step.advance
    && trace.completedAt == trace.startedAt + trace.duration
    && trace.duration == (if Sends(step) then p.target.duration else 0)
    && trace.outcome == OutcomeOf(step, trace.duration)
    && trace.budgetExceeded == ExceedsBudget(step, trace.duration)
    && (trace.sequence.Some? <==> Sends(step))
  }

  lemma {:induction false} TracesContiguous(n: Net, steps: seq<CampaignStep>, prepared: seq<Prepared>, k: nat, i: nat)
    requires |prepared| == |steps| && i < k <= |steps|
    ensures var t := RunUpTo(n, steps, prepared, k);
            && |t.traces| == k && t.time == PreviousEnd(n, t.traces, k)
            && TraceFits(n, steps[i], prepared[i], t.traces, i)
    decreases k
  {
    var before, after := RunUpTo(n, steps, prepared, k - 1), RunUpTo(n, steps, prepared, k);
    if i < k - 1 {
      TracesContiguous(n, steps, prepared, k - 1, i);
      assert after.traces[i] == before.traces[i];
      assert PreviousEnd(n, after.traces, i) == PreviousEnd(n, before.traces, i);
    } else if k > 1 {
      TracesContiguous(n, steps, prepared, k - 1, 0);
    }
  }

  lemma StatusFromTraces(n: Net, steps: seq<CampaignStep>, prepared: seq<Prepared>)
    requires |prepared| == |steps|
    ensures var t := RunUpTo(n, steps, prepared, |steps|);
            && (StatusOf(t).Passed? <==> forall i :: 0 <= i < |t.traces| ==> t.traces[i].outcome.Delivered?)
            && (StatusOf(t).CampaignFailed? <==> exists i :: 0 <= i < |t.traces| && t.traces[i].outcome.Failed?)
  {
    hide RunUpTo;
    hide TraceFits;
    hide FailedTraces;
    hide ExceededTraces;
    hide TotalDuration;
    hide SentDurations;
    var t := RunUpTo(n, steps, prepared, |steps|);
    TotalsCountTraces(n, steps, prepared, |steps|);
    NoneFailed(t.traces);
    forall i | 0 <= i < |t.traces|
      ensures t.traces[i].outcome.Delivered? <==> !t.traces[i].outcome.Failed? && !t.traces[i].budgetExceeded
    {
      TracesContiguous(n, steps, prepared, |steps|, i);
      FittingDelivered(n, steps[i], prepared[i], t.traces, i);
    }
  }

  lemma FittingDelivered(n: Net, step: CampaignStep, p: Prepared, traces: seq<Trace>, i: nat)
    requires i < |traces| && TraceFits(n, step, p, traces, i)
    ensures traces[i].outcome.Delivered? <==> !traces[i].outcome.Failed? && !traces[i].budgetExceeded
  {}

  lemma PercentileAtMostMaximum(values: seq<nat>)
    ensures Percentile95(values) <= Largest(values)
    ensures values != [] ==> Largest(values) in values
  {
    LargestBounds(values);
    if values != [] {
      PercentileIsNearestRank(values);
    }
  }

  /** What the result of a campaign says about its traces. */
  ghost predicate Accounted(r: CampaignResult) {
    && r.window == r.occupied + r.idle
    && r.occupied == TotalDuration(r.traces)
    && r.percent == Round6(Percent(r.occupied, r.window)) && 0.0 <= r.percent <= 100.0
    && r.delivered + r.failed == r.stepCount == |r.traces|
    && r.failed == FailedTraces(r.traces)
    && (forall p :: CountOf(r.protocolCounts, p) == ProtocolTraces(r.traces, p))
    && CountOf(r.protocolCounts, Can) + CountOf(r.protocolCounts, Lin) + CountOf(r.protocolCounts, Ethernet) ==
         r.stepCount
    && (r.status.Passed? <==> forall i :: 0 <= i < |r.traces| ==> r.traces[i].outcome.Delivered?)
    && (r.status.CampaignFailed? <==> exists i :: 0 <= i < |r.traces| && r.traces[i].outcome.Failed?)
    && r.p95Latency == Percentile95(SentDurations(r.traces)) <= r.maximumLatency
    && (SentDurations(r.traces) != [] ==> r.maximumLatency in SentDurations(r.traces))
  }

  /**
   * Accounting of an accepted campaign: the window is the occupied plus the idle time; deliveries plus
   * failures, and the protocol counts, add up to the steps; the status is passed exactly when every trace
   * was delivered and failed exactly when some trace failed; and the percentile is at most the maximum.
   */
  lemma CampaignAccounting(l: Ledger, c: CampaignCommand)
    requires ExecuteCampaign(l, c).outcome.Done?
    ensures var row := ExecuteCampaign(l, c).outcome.row;
            row.CampaignRow? && |row.campaignResult.traces| == |c.steps| && Accounted(row.campaignResult)
  {
    hide Find;
    hide Accounted;
    hide ResultOf;
    hide RunUpTo;
    CampaignResults(l, c);
    ResultAccounted(l.net, c.steps, Prepare(l.net, c.steps).value);
    ResultTraces(l.net, c.steps, RunUpTo(l.net, c.steps, Prepare(l.net, c.steps).value, |c.steps|));
    hide ExecuteCampaign;
    hide Prepare;
  }

  lemma CampaignResults(l: Ledger, c: CampaignCommand)
    requires ExecuteCampaign(l, c).outcome.Done?
    ensures Prepare(l.net, c.steps).Ok?
    ensures var row := ExecuteCampaign(l, c).outcome.row;
            && row.CampaignRow?
            && row.campaignResult ==
                 ResultOf(l.net, c.steps, RunUpTo(l.net, c.steps, Prepare(l.net, c.steps).value, |c.steps|))
  {
    hide Find;
    hide Prepare;
    hide ResultOf;
    hide RunUpTo;
  }

  lemma ResultTraces(n: Net, steps: seq<CampaignStep>, t: Totals)
    ensures ResultOf(n, steps, t).traces == t.traces
  {}

  lemma ResultAccounted(n: Net, steps: seq<CampaignStep>, prepared: seq<Prepared>)
    requires |prepared| == |steps|
    ensures var t := RunUpTo(n, steps, prepared, |steps|);
            |t.traces| == |steps| && Accounted(ResultOf(n, steps, t))
  {
    var t := RunUpTo(n, steps, prepared, |steps|);
    TotalsCountTraces(n, steps, prepared, |steps|);
    StatusFromTraces(n, steps, prepared);
    PercentileAtMostMaximum(t.latencies);
    RoundedPercent(t.occupied, t.time - n.time);
    forall p ensures CountOf(t.protocolCounts, p) == ProtocolTraces(t.traces, p) {
      ProtocolCount(n, steps, prepared, |steps|, p);
    }
    ProtocolTracesAddUp(t.traces);
  }

  // ---------- refinement ----------

  /** The route command that does the same as a sending step. */
  function RouteOf(l: Ledger, step: CampaignStep, id: string): RouteCommand {
    RouteCommand(id, l.net.version, step.routeId, step.payload, step.advance)
  }

  /** One step as its own command: a route, or only the passing of time when the gateway is unavailable. */
  function StepAlone(l: Ledger, step: CampaignStep, id: string): Ledger {
    if Sends(step) then ExecuteRoute(l, RouteOf(l, step, id)).ledger
    else l.(net := l.net.(time := l.net.time + step.advance))
  }

  function StepsAlone(l: Ledger, steps: seq<CampaignStep>, ids: seq<string>, k: nat): Ledger
    requires |ids| == |steps| && k <= |steps|
  {
    if k == 0 then l else StepAlone(StepsAlone(l, steps, ids, k - 1), steps[k - 1], ids[k - 1])
  }

  ghost predicate Fresh(l: Ledger, ids: seq<string>) {
    && (forall i, j :: 0 <= i < j < |ids| ==> ids[i] != ids[j])
    && (forall i :: 0 <= i < |ids| ==> Find(l.rows, GatewayExecutions, ids[i]).None?)
  }

  /** A step is accepted by a campaign exactly when it would be accepted as a route of its own. */
  lemma StepAcceptedIffRoute(l: Ledger, step: CampaignStep, id: string)
    requires Find(l.rows, GatewayExecutions, id).None?
    ensures PrepareStep(l.net, step).Ok? <==> ExecuteRoute(l, RouteOf(l, step, id)).outcome.Done?
  {}

  /** A campaign is accepted exactly when it expects the version and each step would be accepted on its own. */
  lemma CampaignAcceptsExactly(l: Ledger, c: CampaignCommand, ids: seq<string>)
    requires Find(l.rows, Campaigns, c.commandId).None?
    requires |ids| == |c.steps| && Fresh(l, ids)
    ensures ExecuteCampaign(l, c).outcome.Done? <==>
            && c.expectedVersion == l.net.version
            && forall i :: 0 <= i < |c.steps| ==> ExecuteRoute(l, RouteOf(l, c.steps[i], ids[i])).outcome.Done?
    ensures !ExecuteCampaign(l, c).outcome.Done? ==> ExecuteCampaign(l, c).ledger == l
  {
    PreparedSteps(l.net, c.steps, |c.steps|);
    forall i | 0 <= i < |c.steps|
      ensures PrepareStep(l.net, c.steps[i]).Ok? <==> ExecuteRoute(l, RouteOf(l, c.steps[i], ids[i])).outcome.Done?
    {
      StepAcceptedIffRoute(l, c.steps[i], ids[i]);
    }
  }

  /** Nothing a campaign step depends on changes while the campaign runs. */
  lemma PreparationStable(n: Net, m: Net, step: CampaignStep)
    requires m == n.(time := m.time, nextSequence := m.nextSequence, version := m.version)
    ensures PrepareStep(m, step) == PrepareStep(n, step)
  {}

  /** The row of a route and the trace of a step record the same transmission. */
  ghost predicate SameEvidence(row: Row, trace: Trace) {
    && row.GatewayRow? && row.routed.Some?
    && Some(row.routed.value.sequence) == trace.sequence
    && row.routed.value.startedAt == trace.startedAt
    && row.routed.value.completedAt == trace.completedAt
    && row.routed.value.duration == trace.duration
    && row.routed.value.route == trace.route
    && row.routed.value.payloadLength == trace.payloadLength
    && Some(row.routed.value.timing) == trace.timing
  }

  /** A step executed on its own moves the network exactly as the campaign loop does, and reports the same times. */
  lemma StepMatchesLoop(l: Ledger, t: Totals, step: CampaignStep, p: Prepared, id: string)
    requires PrepareStep(l.net, step) == Ok(p)
    requires l.net.time == t.time && l.net.nextSequence == t.nextSequence
    requires Find(l.rows, GatewayExecutions, id).None?
    ensures var alone := StepAlone(l, step, id);
            var after := After(t, step, p);
            && alone.net == l.net.(time := after.time, nextSequence := after.nextSequence,
                                   version := l.net.version + (if Sends(step) then 1 else 0))
            && alone.rows == l.rows + (if Sends(step) then [ExecuteRoute(l, RouteOf(l, step, id)).outcome.row] else [])
    ensures Sends(step) ==> ExecuteRoute(l, RouteOf(l, step, id)).outcome.Done?
    ensures Sends(step) ==>
            var row := ExecuteRoute(l, RouteOf(l, step, id)).outcome.row;
            var trace := TraceOf(t, step, p);
            row.Is(GatewayExecutions, id) && SameEvidence(row, trace)
  {}

  /** `alone` has caught up with the campaign loop after its totals are `t`, and ids from k on are still free. */
  ghost predicate CaughtUp(l: Ledger, t: Totals, alone: Ledger, ids: seq<string>, k: nat) {
    && alone.net == l.net.(time := t.time, nextSequence := t.nextSequence, version := l.net.version + |t.latencies|)
    && forall i :: k <= i < |ids| ==> Find(alone.rows, GatewayExecutions, ids[i]).None?
  }

  lemma CatchUpStep(l: Ledger, t: Totals, alone: Ledger, ids: seq<string>, k: nat, step: CampaignStep, p: Prepared)
    requires Fresh(l, ids) && k < |ids|
    requires PrepareStep(l.net, step) == Ok(p)
    requires CaughtUp(l, t, alone, ids, k)
    ensures CaughtUp(l, After(t, step, p), StepAlone(alone, step, ids[k]), ids, k + 1)
  {
    PreparationStable(l.net, alone.net, step);
    StepMatchesLoop(alone, t, step, p, ids[k]);
    forall i | k < i < |ids| ensures Find(StepAlone(alone, step, ids[k]).rows, GatewayExecutions, ids[i]).None? {
      if Sends(step) {
        FindAppend(alone.rows, [ExecuteRoute(alone, RouteOf(alone, step, ids[k])).outcome.row],
                   GatewayExecutions, ids[i]);
      }
    }
  }

  /** The traces of the steps that sent something. */
  function SentTraces(traces: seq<Trace>): seq<Trace> {
    if traces == [] then [] else
      var last := traces[|traces| - 1];
      SentTraces(traces[..|traces| - 1]) + (if last.sequence.Some? then [last] else [])
  }

  ghost predicate Evidenced(rows: seq<Row>, sent: seq<Trace>) {
    |rows| == |sent| && forall i :: 0 <= i < |rows| ==> SameEvidence(rows[i], sent[i])
  }

  /** Beyond the rows of `l`, exactly one row per trace that sent something, in order. */
  ghost predicate Recorded(l: Ledger, t: Totals, alone: Ledger) {
    l.rows <= alone.rows && Evidenced(alone.rows[|l.rows|..], SentTraces(t.traces))
  }

  lemma EvidenceGrows(before: seq<Row>, rows: seq<Row>, row: Row, sent: seq<Trace>, trace: Trace)
    requires before <= rows && Evidenced(rows[|before|..], sent) && SameEvidence(row, trace)
    ensures before <= rows + [row] && Evidenced((rows + [row])[|before|..], sent + [trace])
  {
    hide SameEvidence;
    assert (rows + [row])[|before|..] == rows[|before|..] + [row];
  }

  lemma SentGrows(t: Totals, step: CampaignStep, p: Prepared)
    ensures SentTraces(After(t, step, p).traces) ==
            SentTraces(t.traces) + (if Sends(step) then [TraceOf(t, step, p)] else [])
  {
    assert (t.traces + [TraceOf(t, step, p)])[..|t.traces|] == t.traces;
  }

  lemma RecordStep(l: Ledger, t: Totals, alone: Ledger, ids: seq<string>, k: nat, step: CampaignStep, p: Prepared)
    requires Fresh(l, ids) && k < |ids|
    requires PrepareStep(l.net, step) == Ok(p)
    requires CaughtUp(l, t, alone, ids, k) && Recorded(l, t, alone)
    ensures Recorded(l, After(t, step, p), StepAlone(alone, step, ids[k]))
  {
    hide SameEvidence;
    hide Evidenced;
    hide After;
    hide StepAlone;
    hide ExecuteRoute;
    hide PrepareStep;
    hide Find;
    hide TraceOf;
    hide SentTraces;
    PreparationStable(l.net, alone.net, step);
    StepMatchesLoop(alone, t, step, p, ids[k]);
    SentGrows(t, step, p);
    if Sends(step) {
      EvidenceGrows(l.rows, alone.rows, ExecuteRoute(alone, RouteOf(alone, step, ids[k])).outcome.row,
                    SentTraces(t.traces), TraceOf(t, step, p));
    } else {
      assert alone.rows + [] == alone.rows;
      assert SentTraces(t.traces) + [] == SentTraces(t.traces);
    }
  }

  lemma RecordStart(l: Ledger)
    ensures Recorded(l, Start(l.net), l)
  {}

  lemma CatchUpStart(l: Ledger, ids: seq<string>)
    requires Fresh(l, ids)
    ensures CaughtUp(l, Start(l.net), l, ids, 0)
  {}

  lemma PreparedStep(n: Net, steps: seq<CampaignStep>, prepared: seq<Prepared>, i: nat)
    requires Prepare(n, steps) == Ok(prepared) && i < |steps|
    ensures PrepareStep(n, steps[i]) == Ok(prepared[i])
  {
    PreparedSteps(n, steps, |steps|);
  }

  lemma {:induction false} StepsMatchLoop(l: Ledger, steps: seq<CampaignStep>, prepared: seq<Prepared>,
                                          ids: seq<string>, k: nat)
    requires |ids| == |steps| && k <= |steps| && Fresh(l, ids)
    requires Prepare(l.net, steps) == Ok(prepared)
    ensures CaughtUp(l, RunUpTo(l.net, steps, prepared, k), StepsAlone(l, steps, ids, k), ids, k)
    ensures Recorded(l, RunUpTo(l.net, steps, prepared, k), StepsAlone(l, steps, ids, k))
  {
    hide CaughtUp;
    hide Recorded;
    hide After;
    hide StepAlone;
    if k == 0 {
      CatchUpStart(l, ids);
      RecordStart(l);
    } else {
      StepsMatchLoop(l, steps, prepared, ids, k - 1);
      PreparedStep(l.net, steps, prepared, k - 1);
      var t, alone := RunUpTo(l.net, steps, prepared, k - 1), StepsAlone(l, steps, ids, k - 1);
      CatchUpStep(l, t, alone, ids, k - 1, steps[k - 1], prepared[k - 1]);
      RecordStep(l, t, alone, ids, k - 1, steps[k - 1], prepared[k - 1]);
    }
  }

  /**
   * A campaign leaves the network in the state that executing its steps one by one leaves it in, where an
   * unavailable gateway only lets time pass; it differs in the version alone, which rises by one. The routes
   * record, in order, exactly the transmissions that the campaign's traces record.
   */
  lemma CampaignRefinesRoutes(l: Ledger, c: CampaignCommand, ids: seq<string>)
    requires ExecuteCampaign(l, c).outcome.Done?
    requires |ids| == |c.steps| && Fresh(l, ids)
    ensures ExecuteCampaign(l, c).ledger.net ==
        StepsAlone(l, c.steps, ids, |c.steps|).net.(version := l.net.version + 1)
    ensures ExecuteCampaign(l, c).outcome.row.CampaignRow?
    ensures var alone := StepsAlone(l, c.steps, ids, |c.steps|);
            && l.rows <= alone.rows
            && Evidenced(alone.rows[|l.rows|..], SentTraces(ExecuteCampaign(l, c).outcome.row.campaignResult.traces))
  {
    hide Evidenced;
    hide Find;
    hide RunUpTo;
    hide StepsAlone;
    hide SentTraces;
    hide Prepare;
    StepsMatchLoop(l, c.steps, Prepare(l.net, c.steps).value, ids, |c.steps|);
  }
}

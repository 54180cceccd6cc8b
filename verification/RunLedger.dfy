/**
 * The ledger over whole runs: sequence numbers are handed out once each and in order of time, versions
 * count the commands that took effect, and no id is recorded twice.
 */
module RunLedger {
  import opened Basics
  import opened Schemas
  import opened Store
  import opened Scheduling
  import opened Arbitration
  import opened ArbitrationService
  import opened MultiBus
  import opened Campaign
  import opened DbcService
  import opened Commands
  import opened Runs

  // ---------- sequence numbers ----------

  /** A sequence number and the simulation time of the transmission it was given to. */
  datatype Allotment = Allotment(sequence: nat, time: nat)

  function TraceAllotments(traces: seq<Trace>): seq<Allotment> {
    if traces == [] then [] else
      var last := traces[|traces| - 1];
      TraceAllotments(traces[..|traces| - 1]) +
      (if last.sequence.Some? then [Allotment(last.sequence.value, last.completedAt)] else [])
  }

  function AllotmentsOf(row: Row): seq<Allotment> {
    if row.TransmissionRow? then [Allotment(row.sequence, row.time)]
    else if row.GatewayRow? && row.routed.Some?
        then [Allotment(row.routed.value.sequence, row.routed.value.completedAt)]
    else if row.CampaignRow? then TraceAllotments(row.campaignResult.traces)
    else []
  }

  /** Everything the recorded rows say was given a sequence number, in the order of recording. */
  function Allotments(rows: seq<Row>): seq<Allotment> {
    if rows == [] then [] else Allotments(rows[..|rows| - 1]) + AllotmentsOf(rows[|rows| - 1])
  }

  lemma {:induction false} AllotmentsAppend(a: seq<Row>, b: seq<Row>)
    ensures Allotments(a + b) == Allotments(a) + Allotments(b)
  {
    hide AllotmentsOf;
    if b == [] {
      assert a + b == a;
    } else {
      var last := |b| - 1;
      AllotmentsAppend(a, b[..last]);
      assert (a + b)[..|a + b| - 1] == a + b[..last];
      assert (a + b)[|a + b| - 1] == b[last];
    }
  }

  lemma AllotmentsOfOne(row: Row)
    ensures Allotments([row]) == AllotmentsOf(row)
  {}

  /** Consecutive numbers starting at `from`, at non-decreasing times within the interval. */
  ghost predicate Numbered(a: seq<Allotment>, from: nat, earliest: nat, latest: nat) {
    && earliest <= latest
    && (forall i :: 0 <= i < |a| ==> a[i].sequence == from + i && earliest <= a[i].time <= latest)
    && (forall i, j :: 0 <= i < j < |a| ==> a[i].time <= a[j].time)
  }

  lemma NumberedAppend(a: seq<Allotment>, b: seq<Allotment>, from: nat, earliest: nat, middle: nat, latest: nat)
    requires Numbered(a, from, earliest, middle) && Numbered(b, from + |a|, middle, latest)
    ensures Numbered(a + b, from, earliest, latest)
  {}

  // ---------- one step ----------

  lemma {:induction false} CampaignNumbers(n: Net, steps: seq<CampaignStep>, prepared: seq<Prepared>, k: nat)
    requires |prepared| == |steps| && k <= |steps|
    ensures var t := RunUpTo(n, steps, prepared, k);
            var a := TraceAllotments(t.traces);
            Numbered(a, n.nextSequence, n.time, t.time) && t.nextSequence == n.nextSequence + |a|
  {
    hide After;
    hide Numbered;
    if k == 0 {
      NothingNumbered(n.nextSequence, n.time);
    } else {
      CampaignNumbers(n, steps, prepared, k - 1);
      NumberStep(n, RunUpTo(n, steps, prepared, k - 1), steps[k - 1], prepared[k - 1]);
    }
  }

  lemma NothingNumbered(from: nat, time: nat)
    ensures Numbered([], from, time, time)
  {}

  lemma NumberStep(n: Net, t: Totals, step: CampaignStep, p: Prepared)
    requires var a := TraceAllotments(t.traces);
             Numbered(a, n.nextSequence, n.time, t.time) && t.nextSequence == n.nextSequence + |a|
    ensures var after := After(t, step, p);
            var a := TraceAllotments(after.traces);
            Numbered(a, n.nextSequence, n.time, after.time) && after.nextSequence == n.nextSequence + |a|
  {}

  lemma {:induction false} TransmissionAllotments(rows: seq<Row>, i: nat)
    requires forall j :: 0 <= j < |rows| ==> rows[j].TransmissionRow?
    ensures |Allotments(rows)| == |rows|
    ensures i < |rows| ==> Allotments(rows)[i] == Allotment(rows[i].sequence, rows[i].time)
  {
    if rows != [] {
      TransmissionAllotments(rows[..|rows| - 1], i);
    }
  }

  /** The frames of a batch end one after the other, within the batch's window. */
  lemma SlotsInOrder(cost: CostModel, S: set<Contender>, clock: nat, slots: seq<Slot>)
    requires Feasible(cost, S, clock, slots)
    ensures clock <= EndOf(clock, slots)
    ensures forall i :: 0 <= i < |slots| ==> clock <= slots[i].end <= EndOf(clock, slots)
    ensures forall i, j :: 0 <= i < j < |slots| ==> slots[i].end <= slots[j].end
  {}

  lemma BatchFeasible(n: Net, c: ArbitrationCommand)
    requires c.Valid() && ResolveUpTo(n, c.contenders, |c.contenders|).Ok?
    ensures Feasible(CostOf(n.rates), Elements(ResolveUpTo(n, c.contenders, |c.contenders|).value), n.time,
                     BatchSlots(n, c))
    ensures |BatchSlots(n, c)| == |c.contenders|
  {
    hide ResolveUpTo;
    var cs := ResolveUpTo(n, c.contenders, |c.contenders|).value;
    ResolvedDistinct(n, c);
    ScheduleIsChain(n.rates, cs, n.time);
    ChainIsFeasible(LeastKey, CostOf(n.rates), Elements(cs), n.time, Schedule(n.rates, cs, n.time));
  }

  lemma BatchNumbers(n: Net, c: ArbitrationCommand, slots: seq<Slot>, S: set<Contender>)
    requires Feasible(CostOf(n.rates), S, n.time, slots)
    ensures var a := Allotments(TransmissionsOf(n, c, slots));
            && Numbered(a, n.nextSequence, n.time, EndOf(n.time, slots)) && |a| == |slots|
  {
    var rows := TransmissionsOf(n, c, slots);
    SlotsInOrder(CostOf(n.rates), S, n.time, slots);
    forall i | 0 <= i < |slots| ensures rows[i].TransmissionRow? {
      TransmissionAt(n, c, slots, i);
    }
    hide *;
    TransmissionAllotments(rows, 0);
    forall i | 0 <= i < |slots| ensures Allotments(rows)[i] == Allotment(n.nextSequence + i, slots[i].end) {
      TransmissionAt(n, c, slots, i);
      TransmissionAllotments(rows, i);
    }
    InOrderNumbered(Allotments(rows), slots, n.nextSequence, n.time);
  }

  lemma TransmissionAt(n: Net, c: ArbitrationCommand, slots: seq<Slot>, i: nat)
    requires i < |slots|
    ensures |TransmissionsOf(n, c, slots)| == |slots|
    ensures var row := TransmissionsOf(n, c, slots)[i];
            && row.TransmissionRow? && row.sequence == n.nextSequence + i && row.time == slots[i].end
            && row.producer == slots[i].who.producer && row.request == Arbitrated(c.commandId, slots[i].who.readyAt)
            && row.commandId == TransmissionId(c.commandId, i + 1)
  {}

  lemma InOrderNumbered(a: seq<Allotment>, slots: seq<Slot>, from: nat, clock: nat)
    requires |a| == |slots|
    requires forall i :: 0 <= i < |slots| ==> a[i] == Allotment(from + i, slots[i].end)
    requires clock <= EndOf(clock, slots)
    requires forall i :: 0 <= i < |slots| ==> clock <= slots[i].end <= EndOf(clock, slots)
    requires forall i, j :: 0 <= i < j < |slots| ==> slots[i].end <= slots[j].end
    ensures Numbered(a, from, clock, EndOf(clock, slots))
  {}

  lemma ArbitrationNumbers(l: Ledger, c: Command)
    requires c.Arbitrating? && c.Valid() && CatalogueSound(l) && Step(l, c).outcome.Done?
    ensures var m := Step(l, c).ledger.net;
            var a := Allotments(FreshRows(l, c));
            Numbered(a, l.net.nextSequence, l.net.time, m.time) && m.nextSequence == l.net.nextSequence + |a|
            && |a| == |c.batch.contenders|
  {
    hide *;
    BatchValid(c);
    BatchDone(l, c);
    BatchFeasible(l.net, c.batch);
    var slots, row := BatchSlots(l.net, c.batch), Step(l, c).outcome.row;
    BatchNumbers(l.net, c.batch, slots, Elements(ResolveUpTo(l.net, c.batch.contenders, |c.batch.contenders|).value));
    AllotmentsAppend([row], TransmissionsOf(l.net, c.batch, slots));
    ArbitrationRowNumbers(row);
    assert [] + Allotments(TransmissionsOf(l.net, c.batch, slots)) ==
        Allotments(TransmissionsOf(l.net, c.batch, slots));
  }

  lemma BatchValid(c: Command)
    requires c.Arbitrating? && c.Valid()
    ensures c.batch.Valid()
  {}

  lemma ArbitrationRowNumbers(row: Row)
    requires row.ArbitrationRow?
    ensures Allotments([row]) == []
  {}

  function SendingSteps(steps: seq<CampaignStep>): nat {
    if steps == [] then 0 else SendingSteps(steps[..|steps| - 1]) + (if Sends(steps[|steps| - 1]) then 1 else 0)
  }

  lemma {:induction false} CampaignSends(n: Net, steps: seq<CampaignStep>, prepared: seq<Prepared>, k: nat)
    requires |prepared| == |steps| && k <= |steps|
    ensures RunUpTo(n, steps, prepared, k).nextSequence == n.nextSequence + SendingSteps(steps[..k])
  {
    if k > 0 {
      CampaignSends(n, steps, prepared, k - 1);
      assert steps[..k][..k - 1] == steps[..k - 1];
    }
  }

  /** How many sequence numbers a command that takes effect uses. */
  function Used(c: Command): nat {
    match c
    case Submitting(_) => 1
    case Arbitrating(b) => |b.contenders|
    case Routing(_) => 1
    case Campaigning(x) => SendingSteps(x.steps)
    case _ => 0
  }

  /**
   * One step hands out the next free numbers, one per transmission, from the current time on; faults,
   * configurations, catalogues and codec commands hand out none.
   */
  lemma StepNumbers(l: Ledger, c: Command)
    requires c.Valid() && CatalogueSound(l)
    ensures var m := Step(l, c).ledger.net;
            var a := Allotments(FreshRows(l, c));
            && Numbered(a, l.net.nextSequence, l.net.time, m.time)
            && m.nextSequence == l.net.nextSequence + |a|
            && |a| == (if Step(l, c).outcome.Done? then Used(c) else 0)
  {
    StepAppends(l, c);
    if Step(l, c).outcome.Done? {
      if c.Arbitrating? {
        ArbitrationNumbers(l, c);
      } else {
        AllotmentsOfOne(Step(l, c).outcome.row);
        SingleNumbers(l, c);
      }
    }
  }

  lemma SingleNumbers(l: Ledger, c: Command)
    requires c.Valid() && CatalogueSound(l) && !c.Arbitrating? && Step(l, c).outcome.Done?
    ensures var m := Step(l, c).ledger.net;
            var a := AllotmentsOf(Step(l, c).outcome.row);
            && Numbered(a, l.net.nextSequence, l.net.time, m.time)
            && m.nextSequence == l.net.nextSequence + |a| && |a| == Used(c)
  {
    hide Destination;
    hide Find;
    hide CatalogueSound;
    hide RunUpTo;
    hide Prepare;
    hide BatchSlots;
    hide FindContract;
    hide FindRoute;
    hide ConfigurationError;
    hide FirstMessageError;
    hide TraceAllotments;
    match c
    case Campaigning(x) => CampaignCommandNumbers(l.net, x.steps);
    case Coding(x) => CodecLeavesNetwork(l, x);
    case _ =>
  }

  lemma CampaignCommandNumbers(n: Net, steps: seq<CampaignStep>)
    requires Prepare(n, steps).Ok?
    ensures var t := RunUpTo(n, steps, Prepare(n, steps).value, |steps|);
            var a := TraceAllotments(t.traces);
            && Numbered(a, n.nextSequence, n.time, t.time)
            && t.nextSequence == n.nextSequence + |a| && |a| == SendingSteps(steps)
  {
    CampaignNumbers(n, steps, Prepare(n, steps).value, |steps|);
    CampaignSends(n, steps, Prepare(n, steps).value, |steps|);
    assert steps[..|steps|] == steps;
  }

  // ---------- whole runs ----------

  /** The numbers handed out are exactly 1, 2, ..., next_sequence - 1, each once, at non-decreasing times up to now. */
  ghost predicate SequencesExact(l: Ledger) {
    && Numbered(Allotments(l.rows), 1, 0, l.net.time)
    && |Allotments(l.rows)| == l.net.nextSequence - 1
  }

  lemma StepKeepsSequences(l: Ledger, c: Command)
    requires c.Valid() && CatalogueSound(l) && SequencesExact(l)
    ensures SequencesExact(Step(l, c).ledger)
  {
    hide Step;
    hide FreshRows;
    hide CatalogueSound;
    hide AllotmentsOf;
    StepAppends(l, c);
    StepNumbers(l, c);
    AllotmentsAppend(l.rows, FreshRows(l, c));
    NumberedAppend(Allotments(l.rows), Allotments(FreshRows(l, c)), 1, 0, l.net.time, Step(l, c).ledger.net.time);
  }

  lemma SequencesAtStart(create: NetworkCreate)
    ensures SequencesExact(Created(create))
  {}

  /**
   * Over every run of submissions, arbitrations, routes, campaigns and all other commands, no sequence
   * number is skipped, repeated or out of time order.
   */
  lemma {:induction false} SequencesOverRuns(create: NetworkCreate, cs: seq<Command>, k: nat)
    requires AllValid(cs) && k <= |cs|
    ensures SequencesExact(Run(Created(create), cs, k))
  {
    hide *;
    SequencesAtStart(create);
    StartLedger(Created(create), cs);
    if k > 0 {
      SequencesOverRuns(create, cs, k - 1);
      NextLedger(Created(create), cs, k - 1);
      StepKeepsSequences(Run(Created(create), cs, k - 1), cs[k - 1]);
    }
  }

  // ---------- versions ----------

  /** The row was recorded for a command that raised the version. */
  predicate Effective(row: Row) {
    !row.CodecRow? && (row.TransmissionRow? ==> row.request.Direct?)
  }

  function EffectiveRows(rows: seq<Row>): seq<Row> {
    if rows == [] then [] else
      EffectiveRows(rows[..|rows| - 1]) + (if Effective(rows[|rows| - 1]) then [rows[|rows| - 1]] else [])
  }

  lemma {:induction false} EffectiveAppend(a: seq<Row>, b: seq<Row>)
    ensures EffectiveRows(a + b) == EffectiveRows(a) + EffectiveRows(b)
  {
    if b == [] {
      assert a + b == a;
    } else {
      EffectiveAppend(a, b[..|b| - 1]);
      assert (a + b)[..|a + b| - 1] == a + b[..|b| - 1];
    }
  }

  lemma {:induction false} NoneEffective(rows: seq<Row>)
    requires forall i :: 0 <= i < |rows| ==> !Effective(rows[i])
    ensures EffectiveRows(rows) == []
  {
    if rows != [] {
      NoneEffective(rows[..|rows| - 1]);
    }
  }

  /** The row shows the version before the command and the one after it. */
  predicate Bumps(row: Row, version: nat) {
    && !row.CodecRow? && row.networkVersion == version + 1
    && (row.CatalogueRow? || row.previousVersion == version)
  }

  lemma OwnRowVersion(l: Ledger, c: Command)
    requires c.Valid() && CatalogueSound(l)
    ensures var a := Step(l, c);
            if a.outcome.Done? && !c.Coding?
            then && c.ExpectedVersion() == Some(l.net.version) && a.ledger.net.version == l.net.version + 1
                 && Effective(a.outcome.row) && Bumps(a.outcome.row, l.net.version)
            else a.ledger.net.version == l.net.version && (a.outcome.Done? ==> !Effective(a.outcome.row))
  {
    hide Find;
    hide CatalogueSound;
    hide FindContract;
    hide FindRoute;
    hide ConfigurationError;
    hide FirstMessageError;
    hide ResolveUpTo;
    hide BatchSlots;
    hide TransmissionsOf;
    hide FramesOf;
    hide UtilizationOf;
    hide Prepare;
    hide RunUpTo;
    hide ResultOf;
    match c
    case Coding(x) => CodecLeavesNetwork(l, x);
    case _ =>
  }

  /** A command takes effect only at the version it expects, raises it by one, and records that in one row. */
  lemma StepVersions(l: Ledger, c: Command)
    requires c.Valid() && CatalogueSound(l)
    ensures var a := Step(l, c);
            var e := EffectiveRows(FreshRows(l, c));
            if a.outcome.Done? && !c.Coding?
            then && c.ExpectedVersion() == Some(l.net.version) && a.ledger.net.version == l.net.version + 1
                 && e == [a.outcome.row] && Bumps(a.outcome.row, l.net.version)
            else a.ledger.net.version == l.net.version && e == []
  {
    hide Step;
    hide CatalogueSound;
    hide Bumps;
    OwnRowVersion(l, c);
    var a := Step(l, c);
    if a.outcome.Done? {
      var added := FreshRows(l, c)[1..];
      StepAppends(l, c);
      assert FreshRows(l, c) == [a.outcome.row] + added;
      EffectiveAppend([a.outcome.row], added);
      AddedNotEffective(l, c);
      NoneEffective(added);
      assert [a.outcome.row][..0] == [];
    }
  }

  lemma AddedNotEffective(l: Ledger, c: Command)
    requires c.Valid() && CatalogueSound(l) && Step(l, c).outcome.Done?
    ensures FreshRows(l, c) != []
    ensures forall i :: 0 <= i < |FreshRows(l, c)[1..]| ==> !Effective(FreshRows(l, c)[1..][i])
  {}

  /** The version counts the recorded commands that took effect, and the i-th of them led from version i to i + 1. */
  ghost predicate VersionsExact(l: Ledger) {
    && |EffectiveRows(l.rows)| == l.net.version - 1
    && forall i :: 0 <= i < |EffectiveRows(l.rows)| ==> Bumps(EffectiveRows(l.rows)[i], i + 1)
  }

  lemma StepKeepsVersions(l: Ledger, c: Command)
    requires c.Valid() && CatalogueSound(l) && VersionsExact(l)
    ensures VersionsExact(Step(l, c).ledger)
  {
    hide Step;
    hide FreshRows;
    hide CatalogueSound;
    hide Effective;
    hide Bumps;
    StepAppends(l, c);
    StepVersions(l, c);
    EffectiveAppend(l.rows, FreshRows(l, c));
  }

  lemma VersionsAtStart(create: NetworkCreate)
    ensures VersionsExact(Created(create))
  {}

  lemma {:induction false} VersionsOverRuns(create: NetworkCreate, cs: seq<Command>, k: nat)
    requires AllValid(cs) && k <= |cs|
    ensures VersionsExact(Run(Created(create), cs, k))
  {
    hide *;
    VersionsAtStart(create);
    StartLedger(Created(create), cs);
    if k > 0 {
      VersionsOverRuns(create, cs, k - 1);
      NextLedger(Created(create), cs, k - 1);
      StepKeepsVersions(Run(Created(create), cs, k - 1), cs[k - 1]);
    }
  }

  lemma {:induction false} VersionNeverFalls(l: Ledger, cs: seq<Command>, j: nat, k: nat)
    requires CatalogueSound(l) && AllValid(cs) && j <= k <= |cs|
    ensures Run(l, cs, j).net.version <= Run(l, cs, k).net.version
  {
    hide *;
    if j < k {
      NextLedger(l, cs, k - 1);
      VersionNeverFalls(l, cs, j, k - 1);
      OwnRowVersion(Run(l, cs, k - 1), cs[k - 1]);
    }
  }

  /** Optimistic concurrency: of all the commands that expect one version, at most one ever takes effect. */
  lemma OncePerVersion(l: Ledger, cs: seq<Command>, j: nat, k: nat)
    requires CatalogueSound(l) && AllValid(cs) && j < k < |cs|
    requires Step(Run(l, cs, j), cs[j]).outcome.Done? && !cs[j].Coding?
    requires Step(Run(l, cs, k), cs[k]).outcome.Done? && !cs[k].Coding?
    ensures cs[j].ExpectedVersion() != cs[k].ExpectedVersion()
  {
    hide *;
    NextLedger(l, cs, j);
    NextLedger(l, cs, k);
    OwnRowVersion(Run(l, cs, j), cs[j]);
    OwnRowVersion(Run(l, cs, k), cs[k]);
    VersionNeverFalls(l, cs, j + 1, k);
  }

  // ---------- simulation time ----------

  /** How long a row says its command took. */
  function Elapsed(row: Row): int {
    match row
    case TransmissionRow(_, _, _, _, _, _, _, request, _, _, _, _, _) =>
      if request.Direct? then request.command.advance else 0
    case ArbitrationRow(_, _, _, u, _, _) => u.windowEnd - u.windowStart
    case FaultRow(_, _, _, result, _, _) => result.elapsed
    case GatewayRow(_, gateway, routed, _, _) =>
      if gateway.RouteFrame? && routed.Some? then gateway.routing.advance + routed.value.duration else 0
    case CampaignRow(_, _, result, _, _) => result.window
    case CatalogueRow(_, _, _) => 0
    case CodecRow(_, _, _, _, _) => 0
  }

  function TotalElapsed(rows: seq<Row>): int {
    if rows == [] then 0 else TotalElapsed(rows[..|rows| - 1]) + Elapsed(rows[|rows| - 1])
  }

  lemma {:induction false} ElapsedAppend(a: seq<Row>, b: seq<Row>)
    ensures TotalElapsed(a + b) == TotalElapsed(a) + TotalElapsed(b)
  {
    hide Elapsed;
    if b == [] {
      assert a + b == a;
    } else {
      ElapsedAppend(a, b[..|b| - 1]);
      assert (a + b)[..|a + b| - 1] == a + b[..|b| - 1];
    }
  }

  lemma {:induction false} NoneElapsed(rows: seq<Row>)
    requires forall i :: 0 <= i < |rows| ==> Elapsed(rows[i]) == 0
    ensures TotalElapsed(rows) == 0
  {
    if rows != [] {
      NoneElapsed(rows[..|rows| - 1]);
    }
  }

  lemma OwnRowElapsed(l: Ledger, c: Command)
    requires c.Valid() && CatalogueSound(l) && Step(l, c).outcome.Done?
    ensures Step(l, c).ledger.net.time == l.net.time + Elapsed(Step(l, c).outcome.row)
  {
    hide Destination;
    hide AnyRecorded;
    hide Find;
    hide CatalogueSound;
    hide FindContract;
    hide FindRoute;
    hide ConfigurationError;
    hide FirstMessageError;
    hide ResolveUpTo;
    hide BatchSlots;
    hide TransmissionsOf;
    hide FramesOf;
    hide Occupied;
    hide MaximumLatency;
    hide Prepare;
    hide RunUpTo;
    match c
    case Coding(x) => CodecLeavesNetwork(l, x);
    case _ =>
  }

  lemma AddedTakeNoTime(l: Ledger, c: Command, i: nat)
    requires c.Valid() && CatalogueSound(l) && 0 < i < |FreshRows(l, c)|
    ensures Elapsed(FreshRows(l, c)[i]) == 0
  {
    FreshTables(l, c, i);
    hide *;
    BatchValid(c);
    BatchRowAt(l, c, i);
    ArbitratedTakesNoTime(l.net, c.batch, BatchSlots(l.net, c.batch), i - 1);
  }

  lemma ArbitratedTakesNoTime(n: Net, c: ArbitrationCommand, slots: seq<Slot>, i: nat)
    requires i < |slots|
    ensures |TransmissionsOf(n, c, slots)| == |slots| && Elapsed(TransmissionsOf(n, c, slots)[i]) == 0
  {}

  lemma StepElapses(l: Ledger, c: Command)
    requires c.Valid() && CatalogueSound(l)
    ensures Step(l, c).ledger.net.time == l.net.time + TotalElapsed(FreshRows(l, c))
  {
    hide Step;
    hide FreshRows;
    hide Elapsed;
    hide CatalogueSound;
    FreshNonEmpty(l, c);
    StepAppends(l, c);
    if Step(l, c).outcome.Done? {
      var rows, row := FreshRows(l, c), Step(l, c).outcome.row;
      OwnRowElapsed(l, c);
      assert rows == [row] + rows[1..] && [row][..0] == [];
      ElapsedAppend([row], rows[1..]);
      forall i | 0 <= i < |rows[1..]| ensures Elapsed(rows[1..][i]) == 0 {
        AddedTakeNoTime(l, c, i + 1);
      }
      NoneElapsed(rows[1..]);
    }
  }

  lemma TimeAtStart(create: NetworkCreate)
    ensures Created(create).net.time == TotalElapsed(Created(create).rows)
  {}

  lemma StepKeepsTime(l: Ledger, c: Command)
    requires c.Valid() && CatalogueSound(l) && l.net.time == TotalElapsed(l.rows)
    ensures Step(l, c).ledger.net.time == TotalElapsed(Step(l, c).ledger.rows)
  {
    hide *;
    StepElapses(l, c);
    StepAppends(l, c);
    ElapsedAppend(l.rows, FreshRows(l, c));
  }

  /** Conservation of time over every run: the clock shows exactly the sum of what the recorded commands took. */
  lemma {:induction false} TimeOverRuns(create: NetworkCreate, cs: seq<Command>, k: nat)
    requires AllValid(cs) && k <= |cs|
    ensures Run(Created(create), cs, k).net.time == TotalElapsed(Run(Created(create), cs, k).rows)
  {
    hide *;
    TimeAtStart(create);
    StartLedger(Created(create), cs);
    if k > 0 {
      TimeOverRuns(create, cs, k - 1);
      NextLedger(Created(create), cs, k - 1);
      StepKeepsTime(Run(Created(create), cs, k - 1), cs[k - 1]);
    }
  }

  // ---------- unique ids ----------

  ghost predicate UniqueKeys(rows: seq<Row>) {
    forall i, j :: 0 <= i < j < |rows| ==> !rows[j].Is(rows[i].Table(), rows[i].Key())
  }

  ghost predicate Unrecorded(rows: seq<Row>, added: seq<Row>) {
    forall j :: 0 <= j < |added| ==> Find(rows, added[j].Table(), added[j].Key()).None?
  }

  lemma UniqueAppend(rows: seq<Row>, added: seq<Row>)
    requires UniqueKeys(rows) && UniqueKeys(added) && Unrecorded(rows, added)
    ensures UniqueKeys(rows + added)
  {
    forall i, j | 0 <= i < |rows| && 0 <= j < |added| ensures !added[j].Is(rows[i].Table(), rows[i].Key()) {
      FindIff(rows, added[j].Table(), added[j].Key());
      assert !rows[i].Is(added[j].Table(), added[j].Key());
    }
  }

  lemma BatchKeysUnique(n: Net, c: ArbitrationCommand, slots: seq<Slot>, row: Row)
    requires row.ArbitrationRow?
    ensures UniqueKeys([row] + TransmissionsOf(n, c, slots))
  {
    hide Deliveries;
    hide TransmissionId;
    var added := TransmissionsOf(n, c, slots);
    forall i, j | 0 <= i < j < |added| ensures !added[j].Is(added[i].Table(), added[i].Key()) {
      if TransmissionId(c.commandId, i + 1) == TransmissionId(c.commandId, j + 1) {
        TransmissionIdInjective(c.commandId, i + 1, c.commandId, j + 1);
      }
    }
  }

  lemma FreshKeys(l: Ledger, c: Command)
    requires c.Valid() && CatalogueSound(l)
    ensures UniqueKeys(FreshRows(l, c)) && Unrecorded(l.rows, FreshRows(l, c))
  {
    StepAppends(l, c);
    LookupComesFirst(l, c);
    if Step(l, c).outcome.Done? && c.Arbitrating? {
      hide BatchSlots;
      var slots := BatchSlots(l.net, c.batch);
      BatchKeysUnique(l.net, c.batch, slots, Step(l, c).outcome.row);
      NotRecorded(l.rows, TransmissionsOf(l.net, c.batch, slots));
    }
  }

  lemma NotRecorded(rows: seq<Row>, added: seq<Row>)
    ensures !AnyRecorded(rows, added) ==> Unrecorded(rows, added)
  {}

  lemma StepKeepsKeys(l: Ledger, c: Command)
    requires c.Valid() && CatalogueSound(l) && UniqueKeys(l.rows)
    ensures UniqueKeys(Step(l, c).ledger.rows)
  {
    hide *;
    StepAppends(l, c);
    FreshKeys(l, c);
    UniqueAppend(l.rows, FreshRows(l, c));
  }

  lemma KeysAtStart(create: NetworkCreate)
    ensures UniqueKeys(Created(create).rows)
  {}

  /** No two rows of one table ever share an id, not even an arbitrated transmission and a submitted one. */
  lemma {:induction false} KeysUniqueOverRuns(create: NetworkCreate, cs: seq<Command>, k: nat)
    requires AllValid(cs) && k <= |cs|
    ensures UniqueKeys(Run(Created(create), cs, k).rows)
  {
    hide *;
    KeysAtStart(create);
    StartLedger(Created(create), cs);
    if k > 0 {
      KeysUniqueOverRuns(create, cs, k - 1);
      NextLedger(Created(create), cs, k - 1);
      StepKeepsKeys(Run(Created(create), cs, k - 1), cs[k - 1]);
    }
  }
}

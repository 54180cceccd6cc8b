/** Fault confinement over whole runs: what the error counters are, and who may transmit. */
module FaultRuns {
  import opened Basics
  import opened Schemas
  import opened ErrorConfinement
  import opened Store
  import opened Scheduling
  import opened Arbitration
  import opened ArbitrationService
  import opened DbcService
  import FaultInjection
  import opened Submission
  import opened Commands
  import opened Runs
  import opened RunLedger

  /** Transmission and reception errors of a node since its last recovery. */
  datatype ErrorCount = ErrorCount(transmission: nat, reception: nat)

  function Counted(e: ErrorCount, row: Row, node: NodeId): ErrorCount {
    if !row.FaultRow? || row.target != node then e else
      match row.fault
      case Recover(_) => ErrorCount(0, 0)
      case Inject(i) =>
        match i.fault
        case TransmissionError => e.(transmission := e.transmission + i.occurrences)
        case ReceptionError => e.(reception := e.reception + i.occurrences)
        case FrameLoss => e
  }

  /** What the recorded faults say about a node. */
  function ErrorsOf(rows: seq<Row>, node: NodeId): ErrorCount {
    if rows == [] then ErrorCount(0, 0)
    else Counted(ErrorsOf(rows[..|rows| - 1], node), rows[|rows| - 1], node)
  }

  /** The error state these errors put a node in. */
  function StateAfter(e: ErrorCount): ErrorState {
    NewErrorState(8 * e.transmission, e.reception)
  }

  lemma ErrorsAppendOne(rows: seq<Row>, row: Row, node: NodeId)
    ensures ErrorsOf(rows + [row], node) == Counted(ErrorsOf(rows, node), row, node)
  {}

  lemma {:induction false} ErrorsAppendOthers(rows: seq<Row>, added: seq<Row>, node: NodeId)
    requires forall i :: 0 <= i < |added| ==> !added[i].FaultRow?
    ensures ErrorsOf(rows + added, node) == ErrorsOf(rows, node)
  {
    hide Counted;
    if added == [] {
      assert rows + added == rows;
    } else {
      var last := |added| - 1;
      ErrorsAppendOthers(rows, added[..last], node);
      assert (rows + added)[..|rows + added| - 1] == rows + added[..last];
      NotCounted(ErrorsOf(rows, node), added[last], node);
    }
  }

  lemma NotCounted(e: ErrorCount, row: Row, node: NodeId)
    requires !row.FaultRow?
    ensures Counted(e, row, node) == e
  {}

  // ---------- counters ----------

  lemma InjectionCounts(n: Net, c: InjectCommand, e: ErrorCount, row: Row)
    requires row.FaultRow? && row.target == c.target && row.fault == Inject(c)
    requires NodeErrorState(n.errorStates, c.target) == StateAfter(e)
    ensures FaultInjection.InjectionResult(n, c).after == StateAfter(Counted(e, row, c.target))
  {}

  lemma StateStored(states: map<NodeId, ErrorState>, target: NodeId, e: ErrorCount)
    ensures NodeErrorState(states[target := StateAfter(e)], target) == StateAfter(e)
  {}

  predicate Faulting(c: Command) {
    c.Injecting? || c.Recovering?
  }

  function TargetOf(c: Command): NodeId
    requires Faulting(c)
  {
    if c.Injecting? then c.injection.target else c.recovery.target
  }

  /** Only a fault command that takes effect touches error states, and only its target's. */
  lemma OthersKeepErrors(l: Ledger, c: Command, node: NodeId)
    requires c.Valid() && CatalogueSound(l)
    ensures !(Faulting(c) && Step(l, c).outcome.Done? && TargetOf(c) == node) ==>
            NodeErrorState(Step(l, c).ledger.net.errorStates, node) == NodeErrorState(l.net.errorStates, node)
  {
    hide Find;
    hide CatalogueSound;
    hide BatchSlots;
    match c
    case Coding(x) => CodecLeavesNetwork(l, x);
    case _ =>
  }

  lemma NoFaultRows(l: Ledger, c: Command, i: nat)
    requires c.Valid() && CatalogueSound(l) && !Faulting(c) && i < |FreshRows(l, c)|
    ensures !FreshRows(l, c)[i].FaultRow?
  {
    StepAppends(l, c);
    if i > 0 {
      FreshTables(l, c, i);
    }
    hide Step;
    hide FreshRows;
  }

  /** The row a fault command records, and the state it leaves its target in. */
  lemma FaultDone(l: Ledger, c: Command, e: ErrorCount)
    requires c.Valid() && CatalogueSound(l) && Faulting(c) && Step(l, c).outcome.Done?
    requires NodeErrorState(l.net.errorStates, TargetOf(c)) == StateAfter(e)
    ensures var row := Step(l, c).outcome.row;
            && row.FaultRow? && row.target == TargetOf(c)
            && Step(l, c).ledger.rows == l.rows + [row]
            && NodeErrorState(Step(l, c).ledger.net.errorStates, TargetOf(c)) ==
                 StateAfter(Counted(e, row, TargetOf(c)))
  {
    hide Find;
    hide CatalogueSound;
    hide NewErrorState;
    var row := Step(l, c).outcome.row;
    if c.Injecting? {
      InjectionCounts(l.net, c.injection, e, row);
    }
    StateStored(l.net.errorStates, TargetOf(c), Counted(e, row, TargetOf(c)));
  }

  /** The stored state of every node is the one its recorded errors since its last recovery give. */
  ghost predicate CountersMatch(l: Ledger) {
    forall node :: NodeErrorState(l.net.errorStates, node) == StateAfter(ErrorsOf(l.rows, node))
  }

  lemma CounterStep(l: Ledger, c: Command, node: NodeId)
    requires c.Valid() && CatalogueSound(l)
    requires NodeErrorState(l.net.errorStates, node) == StateAfter(ErrorsOf(l.rows, node))
    ensures NodeErrorState(Step(l, c).ledger.net.errorStates, node) ==
        StateAfter(ErrorsOf(Step(l, c).ledger.rows, node))
  {
    OthersKeepErrors(l, c, node);
    StepAppends(l, c);
    if Faulting(c) && Step(l, c).outcome.Done? {
      FaultRowCounts(l, c, node);
    } else {
      forall i | 0 <= i < |FreshRows(l, c)| ensures !FreshRows(l, c)[i].FaultRow? {
        NoFaultRows(l, c, i);
      }
      ErrorsAppendOthers(l.rows, FreshRows(l, c), node);
    }
    hide Step;
    hide FreshRows;
    hide StateAfter;
    hide NodeErrorState;
  }

  lemma FaultRowCounts(l: Ledger, c: Command, node: NodeId)
    requires c.Valid() && CatalogueSound(l) && Faulting(c) && Step(l, c).outcome.Done?
    requires NodeErrorState(l.net.errorStates, node) == StateAfter(ErrorsOf(l.rows, node))
    ensures NodeErrorState(Step(l, c).ledger.net.errorStates, node) ==
        StateAfter(ErrorsOf(Step(l, c).ledger.rows, node))
  {
    var row := Step(l, c).outcome.row;
    OthersKeepErrors(l, c, node);
    FaultRowRecorded(l, c);
    ErrorsAppendOne(l.rows, row, node);
    if TargetOf(c) == node {
      FaultDone(l, c, ErrorsOf(l.rows, node));
    }
    hide Step;
    hide StateAfter;
    hide NodeErrorState;
  }

  lemma FaultRowRecorded(l: Ledger, c: Command)
    requires c.Valid() && CatalogueSound(l) && Faulting(c) && Step(l, c).outcome.Done?
    ensures var row := Step(l, c).outcome.row;
            row.FaultRow? && row.target == TargetOf(c) && Step(l, c).ledger.rows == l.rows + [row]
  {}

  lemma StepKeepsCounters(l: Ledger, c: Command)
    requires c.Valid() && CatalogueSound(l) && CountersMatch(l)
    ensures CountersMatch(Step(l, c).ledger)
  {
    forall node ensures NodeErrorState(Step(l, c).ledger.net.errorStates, node) ==
                        StateAfter(ErrorsOf(Step(l, c).ledger.rows, node)) {
      CounterStep(l, c, node);
    }
    hide Step;
    hide StateAfter;
    hide NodeErrorState;
    hide ErrorsOf;
  }

  lemma CountersAtStart(create: NetworkCreate)
    ensures CountersMatch(Created(create))
  {}

  /**
   * Closed form of the counters over every run: TEC is 8 per transmission error since the last recovery,
   * at most 256; REC is 1 per reception error since then, at most 255; the mode follows from both.
   */
  lemma CountersOverRuns(create: NetworkCreate, cs: seq<Command>, k: nat, node: NodeId)
    requires AllValid(cs) && k <= |cs|
    ensures var l := Run(Created(create), cs, k);
            var e, s := ErrorsOf(l.rows, node), NodeErrorState(l.net.errorStates, node);
            && s.tec == Min(256, 8 * e.transmission) && s.rec == Min(255, e.reception)
            && s.mode == DeriveErrorMode(8 * e.transmission, e.reception)
  {
    CountersMatchOverRuns(create, cs, k);
    hide Run;
    hide ErrorsOf;
  }

  lemma {:induction false} CountersMatchOverRuns(create: NetworkCreate, cs: seq<Command>, k: nat)
    requires AllValid(cs) && k <= |cs|
    ensures CountersMatch(Run(Created(create), cs, k))
  {
    hide *;
    CountersAtStart(create);
    StartLedger(Created(create), cs);
    if k > 0 {
      CountersMatchOverRuns(create, cs, k - 1);
      NextLedger(Created(create), cs, k - 1);
      StepKeepsCounters(Run(Created(create), cs, k - 1), cs[k - 1]);
    }
  }

  // ---------- modes ----------

  function ModeOf(l: Ledger, node: NodeId): ErrorMode {
    NodeErrorState(l.net.errorStates, node).mode
  }

  /**
   * A node's mode worsens only by an injection into it, and improves only by its recovery from bus-off, to
   * error-active.
   */
  lemma ModeMoves(l: Ledger, c: Command, node: NodeId)
    requires c.Valid() && CatalogueSound(l)
    ensures var a := Step(l, c);
            var before, after := ModeOf(l, node), ModeOf(a.ledger, node);
            && (Severity(before) < Severity(after) ==> a.outcome.Done? && c.Injecting? && c.injection.target == node)
            && (Severity(after) < Severity(before) ==>
                  a.outcome.Done? && c.Recovering? && c.recovery.target == node && before.BusOff? && after.ErrorActive?)
  {
    hide Find;
    hide CatalogueSound;
    hide NewErrorState;
    OthersKeepErrors(l, c, node);
    var a := Step(l, c);
    if Faulting(c) && a.outcome.Done? && TargetOf(c) == node {
      if c.Injecting? {
        var s := NodeErrorState(l.net.errorStates, node);
        var tec := s.tec + (if c.injection.fault.TransmissionError? then 8 * c.injection.occurrences else 0);
        var rec := s.rec + (if c.injection.fault.ReceptionError? then c.injection.occurrences else 0);
        ClampKeepsMode(l.net.errorStates, node, tec, rec);
        ModeOfNew(tec, rec);
        MoreErrorsNeverHelp(s.tec, s.rec, tec, rec);
      } else {
        ClampKeepsMode(l.net.errorStates, node, 0, 0);
        ModeOfNew(0, 0);
      }
    }
  }

  lemma ModeOfNew(tec: nat, rec: nat)
    ensures NewErrorState(tec, rec).mode == DeriveErrorMode(tec, rec)
  {}

  // ---------- bus-off nodes are silent ----------

  /**
   * Whenever a transmission was recorded, its producer had not reached 256 / 8 transmission errors since its last
   * recovery.
   */
  ghost predicate SilentWhenBusOff(rows: seq<Row>) {
    forall i :: 0 <= i < |rows| && rows[i].TransmissionRow? ==>
      !StateAfter(ErrorsOf(rows[..i], rows[i].producer)).mode.BusOff?
  }

  lemma ResolvedOnBus(n: Net, c: ArbitrationCommand, i: nat)
    requires c.Valid() && ResolveUpTo(n, c.contenders, |c.contenders|).Ok?
    requires i < |BatchSlots(n, c)|
    ensures !IsBusOff(n.errorStates, BatchSlots(n, c)[i].who.producer)
  {
    BatchFeasible(n, c);
    hide BatchSlots;
    hide ResolveUpTo;
    hide NodeErrorState;
    hide IsBusOff;
    var who := BatchSlots(n, c)[i].who;
    assert who in Elements(ResolveUpTo(n, c.contenders, |c.contenders|).value);
    hide Feasible;
    ResolvedProducer(n, c.contenders, who);
  }

  lemma ResolvedProducer(n: Net, cs: seq<ContenderRequest>, who: Contender)
    requires ResolveUpTo(n, cs, |cs|).Ok? && who in ResolveUpTo(n, cs, |cs|).value
    ensures !IsBusOff(n.errorStates, who.producer)
  {
    hide ResolveUpTo;
    hide NodeErrorState;
    hide FindContract;
    ResolvedContenders(n, cs, |cs|);
    var j :| 0 <= j < |cs| && ResolveUpTo(n, cs, |cs|).value[j] == who;
    assert Resolve(n, cs[j]) == Ok(who);
  }

  lemma ProducerAt(n: Net, c: ArbitrationCommand, slots: seq<Slot>, i: nat)
    requires i < |slots|
    ensures |TransmissionsOf(n, c, slots)| == |slots|
    ensures TransmissionsOf(n, c, slots)[i].TransmissionRow?
    ensures TransmissionsOf(n, c, slots)[i].producer == slots[i].who.producer
  {}

  lemma BatchOnBus(l: Ledger, c: Command, i: nat)
    requires c.Arbitrating? && c.Valid() && CatalogueSound(l) && i < |FreshRows(l, c)|
    ensures FreshRows(l, c)[i].TransmissionRow? ==> !IsBusOff(l.net.errorStates, FreshRows(l, c)[i].producer)
  {
    hide *;
    BatchValid(c);
    BatchRowAt(l, c, i);
    if i > 0 {
      ProducerAt(l.net, c.batch, BatchSlots(l.net, c.batch), i - 1);
      ResolvedOnBus(l.net, c.batch, i - 1);
    }
  }

  /** A transmission is only recorded for a producer that is not bus-off. */
  lemma TransmitsOnBus(l: Ledger, c: Command, i: nat)
    requires c.Valid() && CatalogueSound(l) && i < |FreshRows(l, c)|
    ensures FreshRows(l, c)[i].TransmissionRow? ==> !IsBusOff(l.net.errorStates, FreshRows(l, c)[i].producer)
  {
    hide Find;
    hide CatalogueSound;
    hide IsBusOff;
    hide BatchSlots;
    hide TransmissionsOf;
    StepAppends(l, c);
    if c.Arbitrating? {
      BatchOnBus(l, c, i);
    }
  }

  lemma StepKeepsSilence(l: Ledger, c: Command)
    requires c.Valid() && CatalogueSound(l) && CountersMatch(l) && SilentWhenBusOff(l.rows)
    ensures SilentWhenBusOff(Step(l, c).ledger.rows)
  {
    StepAppends(l, c);
    var added := FreshRows(l, c);
    forall i | 0 <= i < |added| && added[i].TransmissionRow?
      ensures !StateAfter(ErrorsOf(l.rows + added[..i], added[i].producer)).mode.BusOff?
    {
      FreshOnBus(l, c, i);
    }
    hide *;
    SilenceAppends(l.rows, added);
  }

  lemma FreshOnBus(l: Ledger, c: Command, i: nat)
    requires c.Valid() && CatalogueSound(l) && CountersMatch(l)
    requires i < |FreshRows(l, c)| && FreshRows(l, c)[i].TransmissionRow?
    ensures !StateAfter(ErrorsOf(l.rows + FreshRows(l, c)[..i], FreshRows(l, c)[i].producer)).mode.BusOff?
  {
    TransmitsOnBus(l, c, i);
    FaultRowsAlone(l, c, i);
    forall j | 0 <= j < i ensures !FreshRows(l, c)[..i][j].FaultRow? {
      NoFaultRows(l, c, j);
    }
    ErrorsAppendOthers(l.rows, FreshRows(l, c)[..i], FreshRows(l, c)[i].producer);
    hide FreshRows;
    hide ErrorsOf;
    hide StateAfter;
  }

  lemma FaultRowsAlone(l: Ledger, c: Command, i: nat)
    requires c.Valid() && CatalogueSound(l) && i < |FreshRows(l, c)|
    ensures FreshRows(l, c)[i].TransmissionRow? ==> !Faulting(c)
  {}

  lemma SilenceAppends(rows: seq<Row>, added: seq<Row>)
    requires SilentWhenBusOff(rows)
    requires forall i :: 0 <= i < |added| && added[i].TransmissionRow? ==>
               !StateAfter(ErrorsOf(rows + added[..i], added[i].producer)).mode.BusOff?
    ensures SilentWhenBusOff(rows + added)
  {
    hide ErrorsOf;
    hide StateAfter;
    var all := rows + added;
    forall i | 0 <= i < |all| && all[i].TransmissionRow?
      ensures !StateAfter(ErrorsOf(all[..i], all[i].producer)).mode.BusOff?
    {
      if i < |rows| {
        assert all[..i] == rows[..i];
      } else {
        assert all[..i] == rows + added[..i - |rows|];
      }
    }
  }

  lemma SilenceAtStart(create: NetworkCreate)
    ensures SilentWhenBusOff(Created(create).rows)
  {}

  /**
   * Bus-off safety over every run: from the error that takes a node's TEC to 256 until its recovery, no
   * transmission it produces is recorded, neither by submission nor by arbitration.
   */
  lemma {:induction false} SilenceOverRuns(create: NetworkCreate, cs: seq<Command>, k: nat)
    requires AllValid(cs) && k <= |cs|
    ensures SilentWhenBusOff(Run(Created(create), cs, k).rows)
  {
    hide *;
    SilenceAtStart(create);
    StartLedger(Created(create), cs);
    if k > 0 {
      SilenceOverRuns(create, cs, k - 1);
      CountersMatchOverRuns(create, cs, k - 1);
      NextLedger(Created(create), cs, k - 1);
      StepKeepsSilence(Run(Created(create), cs, k - 1), cs[k - 1]);
    }
  }

  // ---------- acceptance from history ----------

  /** 32 transmission errors since the last recovery, and only they, take a node off the bus. */
  lemma BusOffFromHistory(create: NetworkCreate, cs: seq<Command>, k: nat, node: NodeId)
    requires AllValid(cs) && k <= |cs|
    ensures var l := Run(Created(create), cs, k);
            IsBusOff(l.net.errorStates, node) <==> ErrorsOf(l.rows, node).transmission >= 32
  {
    CountersOverRuns(create, cs, k, node);
    hide Run;
    hide ErrorsOf;
  }

  /**
   * In every reachable network, a frame with a free id, submitted at the current version by its declared producer
   * with the contracted length, is accepted exactly when fewer than 32 transmission errors were injected into the
   * producer since its last recovery.
   */
  lemma SubmissionFromHistory(create: NetworkCreate, cs: seq<Command>, k: nat, s: SubmitCommand,
                              contract: FrameContract)
    requires AllValid(cs) && k <= |cs|
    requires var l := Run(Created(create), cs, k);
             && Find(l.rows, Transmissions, s.commandId).None? && s.expectedVersion == l.net.version
             && FindContract(l.net.contracts, s.contractId) == Some(contract)
             && s.producer == contract.producer && |s.payload| == contract.dlc
    ensures var l := Run(Created(create), cs, k);
            Submit(l, s).outcome.Done? <==> ErrorsOf(l.rows, s.producer).transmission < 32
  {
    BusOffFromHistory(create, cs, k, s.producer);
    SubmitAcceptsExactly(Run(Created(create), cs, k), s);
    hide Run;
    hide ErrorsOf;
    hide Find;
    hide FindContract;
  }

  /** And a node can be recovered, at the current version under a free id, exactly from 32 such errors on. */
  lemma RecoveryFromHistory(create: NetworkCreate, cs: seq<Command>, k: nat, r: RecoverCommand)
    requires AllValid(cs) && k <= |cs|
    requires var l := Run(Created(create), cs, k);
             Find(l.rows, Faults, r.commandId).None? && r.expectedVersion == l.net.version
    ensures var l := Run(Created(create), cs, k);
            FaultInjection.RecoverNode(l, r).outcome.Done? <==> ErrorsOf(l.rows, r.target).transmission >= 32
  {
    BusOffFromHistory(create, cs, k, r.target);
    FaultInjection.RecoverAcceptsExactly(Run(Created(create), cs, k), r);
    hide Run;
    hide ErrorsOf;
    hide Find;
  }
}

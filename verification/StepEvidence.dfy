/**
 * What a submission, an injected fault and a recovery record and change, told by the command and the network before
 * it; and that every recorded row has such a command.
 */
module StepEvidence {
  import opened Basics
  import opened Schemas
  import opened CanTiming
  import opened ErrorConfinement
  import opened Store
  import opened Submission
  import opened FaultInjection
  import opened DbcService
  import opened Commands
  import opened Runs
  import opened FaultRuns
  import opened BatchEvidence

  // ---------- submissions ----------

  /** The row stores the submitted frame, sent when the requested time has passed, under the next sequence number. */
  ghost predicate TellsSubmission(n: Net, s: SubmitCommand, row: Row, after: Net) {
    && row.TransmissionRow? && row.commandId == s.commandId && row.request == Direct(s)
    && row.producer == s.producer && row.payload == s.payload
    && (exists contract :: FindContract(n.contracts, s.contractId) == Some(contract)
          && row.contractId == s.contractId == contract.identifier && row.frameId == contract.frameId
          && row.format == contract.format && row.protocol == contract.protocol
          && row.bitrateSwitch == contract.bitrateSwitch)
    && row.sequence == n.nextSequence && row.time == n.time + s.advance
    && row.previousVersion == s.expectedVersion == n.version && row.networkVersion == n.version + 1
    && after == n.(time := row.time, nextSequence := n.nextSequence + 1, version := n.version + 1)
  }

  lemma SubmissionRecords(l: Ledger, s: SubmitCommand)
    requires Submit(l, s).outcome.Done?
    ensures var a := Submit(l, s);
            a.ledger.rows == l.rows + [a.outcome.row] && TellsSubmission(l.net, s, a.outcome.row, a.ledger.net)
  {
    var contract := FindContract(l.net.contracts, s.contractId).value;
    assert Submit(l, s).outcome.row.contractId == contract.identifier;
    hide Find;
  }

  /** The frame as it would contend on its own. */
  function AlsoRequested(s: SubmitCommand): ContenderRequest {
    ContenderRequest(s.contractId, s.producer, s.payload, s.advance)
  }

  /** A submission is accepted exactly when its id is free, its version current and its frame may contend. */
  lemma SubmissionExactly(l: Ledger, s: SubmitCommand)
    ensures Submit(l, s).outcome.Done? <==>
            Find(l.rows, Transmissions, s.commandId).None? && s.expectedVersion == l.net.version
            && Contends(l.net, AlsoRequested(s))
    ensures Find(l.rows, Transmissions, s.commandId).None? && s.expectedVersion == l.net.version
            && !Contends(l.net, AlsoRequested(s)) ==>
              Submit(l, s).outcome.Rejected? && Refuses(l.net, AlsoRequested(s), Submit(l, s).outcome.error)
  {
    hide Find;
    var found := FindContract(l.net.contracts, s.contractId);
    assert found.Some? ==> (Contends(l.net, AlsoRequested(s)) <==> MayContend(l.net, AlsoRequested(s), found.value));
    hide Contends;
  }

  // ---------- error states ----------

  /** The mode that the two counters put a node in. */
  predicate ModeFor(tec: nat, rec: nat, mode: ErrorMode) {
    match mode
    case BusOff => tec >= 256
    case ErrorPassive => tec < 256 && (tec >= 128 || rec >= 128)
    case ErrorActive => tec < 128 && rec < 128
  }

  /** A state reached with these counters, of which it shows at most 256 and 255. */
  predicate Shows(s: ErrorState, tec: nat, rec: nat) {
    && s.tec == (if tec <= 256 then tec else 256) && s.rec == (if rec <= 255 then rec else 255)
    && ModeFor(tec, rec, s.mode)
  }

  lemma ModeExactly(tec: nat, rec: nat, mode: ErrorMode)
    ensures DeriveErrorMode(tec, rec) == mode <==> ModeFor(tec, rec, mode)
  {}

  lemma ShowsExactly(s: ErrorState, tec: nat, rec: nat)
    ensures s == NewErrorState(tec, rec) <==> Shows(s, tec, rec)
  {}

  /** What a node's stored counters are: 0 before its first fault. */
  predicate Holds(states: map<NodeId, ErrorState>, node: NodeId, s: ErrorState) {
    && s.tec == (if node in states then states[node].tec else 0)
    && s.rec == (if node in states then states[node].rec else 0)
    && ModeFor(s.tec, s.rec, s.mode)
  }

  lemma HoldsExactly(states: map<NodeId, ErrorState>, node: NodeId, s: ErrorState)
    ensures s == NodeErrorState(states, node) <==> Holds(states, node, s)
  {}

  /** The state of a node over every run, by the errors recorded since its last recovery. */
  lemma StateFromHistory(create: NetworkCreate, cs: seq<Command>, k: nat, node: NodeId, s: ErrorState)
    requires AllValid(cs) && k <= |cs|
    ensures var l := Run(Created(create), cs, k);
            var e := ErrorsOf(l.rows, node);
            Holds(l.net.errorStates, node, s) <==> Shows(s, 8 * e.transmission, e.reception)
  {
    var l := Run(Created(create), cs, k);
    CountersOverRuns(create, cs, k, node);
    HoldsExactly(l.net.errorStates, node, s);
    var e := ErrorsOf(l.rows, node);
    ShowsExactly(s, 8 * e.transmission, e.reception);
    hide Run;
    hide ErrorsOf;
    hide NodeErrorState;
    hide DeriveErrorMode;
    hide Holds;
    hide Shows;
  }

  // ---------- faults ----------

  /**
   * Every occurrence is an error frame of 14 bits, or a lost frame that takes no time. A transmission error adds 8 to
   * the target's TEC, a reception error 1 to its REC, and a lost frame nothing.
   */
  ghost predicate TellsInjection(n: Net, i: InjectCommand, row: Row, after: Net) {
    && row.FaultRow? && row.commandId == i.commandId && row.target == i.target && row.fault == Inject(i)
    && InjectionTimed(n, i, row.faultResult) && InjectionCounted(n, i, row.faultResult)
    && row.previousVersion == i.expectedVersion == n.version && row.networkVersion == n.version + 1
    && after == n.(errorStates := n.errorStates[i.target := row.faultResult.after],
                   time := n.time + row.faultResult.elapsed, version := n.version + 1)
  }

  ghost predicate InjectionTimed(n: Net, i: InjectCommand, f: FaultResult) {
    && f.errorFrames + f.lostFrames == i.occurrences
    && (if i.fault == FrameLoss then f.errorFrames == 0 else f.lostFrames == 0)
    && exists us :: Takes(us, 14 * f.errorFrames, n.rates.nominal) && f.elapsed == i.advance + us
  }

  predicate InjectionCounted(n: Net, i: InjectCommand, f: FaultResult) {
    && Holds(n.errorStates, i.target, f.before)
    && Shows(f.after, if i.fault == TransmissionError then f.before.tec + 8 * i.occurrences else f.before.tec,
             if i.fault == ReceptionError then f.before.rec + i.occurrences else f.before.rec)
  }

  lemma InjectionRecords(l: Ledger, i: InjectCommand)
    requires InjectFault(l, i).outcome.Done?
    ensures var a := InjectFault(l, i);
            a.ledger.rows == l.rows + [a.outcome.row] && TellsInjection(l.net, i, a.outcome.row, a.ledger.net)
  {
    hide InjectionTimed;
    hide InjectionCounted;
    hide InjectionResult;
    InjectionTold(l.net, i);
    hide Find;
  }

  lemma InjectionTold(n: Net, i: InjectCommand)
    ensures InjectionTimed(n, i, InjectionResult(n, i)) && InjectionCounted(n, i, InjectionResult(n, i))
  {
    var f := InjectionResult(n, i);
    DurationExactly(14 * f.errorFrames, n.rates.nominal, DurationUs(14 * f.errorFrames, n.rates.nominal));
    hide DurationUs;
    hide Takes;
  }

  /** A node recovers from a TEC of 256 by bus-idle sequences of 11 bits, and starts again with cleared counters. */
  ghost predicate TellsRecovery(n: Net, r: RecoverCommand, row: Row, after: Net) {
    && row.FaultRow? && row.commandId == r.commandId && row.target == r.target && row.fault == Recover(r)
    && row.faultResult.errorFrames == 0 && row.faultResult.lostFrames == 0
    && Takes(row.faultResult.elapsed, 11 * r.recessiveSequences, n.rates.nominal)
    && Holds(n.errorStates, r.target, row.faultResult.before) && row.faultResult.before.tec >= 256
    && Shows(row.faultResult.after, 0, 0)
    && row.previousVersion == r.expectedVersion == n.version && row.networkVersion == n.version + 1
    && after == n.(errorStates := n.errorStates[r.target := row.faultResult.after],
                   time := n.time + row.faultResult.elapsed, version := n.version + 1)
  }

  lemma RecoveryRecords(l: Ledger, r: RecoverCommand)
    requires RecoverNode(l, r).outcome.Done?
    ensures var a := RecoverNode(l, r);
            a.ledger.rows == l.rows + [a.outcome.row] && TellsRecovery(l.net, r, a.outcome.row, a.ledger.net)
  {
    var bits := 11 * r.recessiveSequences;
    DurationExactly(bits, l.net.rates.nominal, DurationUs(bits, l.net.rates.nominal));
    hide DurationUs;
    hide Takes;
    hide Find;
  }

  // ---------- every row has its command ----------

  /** The command at position j of the run took effect and recorded the row. */
  ghost predicate RecordedBy(l: Ledger, cs: seq<Command>, j: nat, row: Row)
    requires CatalogueSound(l) && AllValid(cs) && j < |cs|
  {
    Step(Run(l, cs, j), cs[j]).outcome.Done? && row in FreshRows(Run(l, cs, j), cs[j])
  }

  /** Nothing is recorded but by a command that took effect; what it records is told by its own step. */
  lemma {:induction false} RowsHaveCommands(create: NetworkCreate, cs: seq<Command>, k: nat, row: Row)
    requires AllValid(cs) && k <= |cs| && row in Run(Created(create), cs, k).rows
    ensures exists j: nat :: j < k && RecordedBy(Created(create), cs, j, row)
  {
    hide *;
    StartLedger(Created(create), cs);
    NothingRecorded(create);
    if k > 0 {
      var before := Run(Created(create), cs, k - 1);
      NextLedger(Created(create), cs, k - 1);
      StepAppends(before, cs[k - 1]);
      if row in before.rows {
        RowsHaveCommands(create, cs, k - 1, row);
      } else {
        JustRecorded(create, cs, k - 1, row);
      }
    }
  }

  lemma NothingRecorded(create: NetworkCreate)
    ensures Created(create).rows == []
  {}

  lemma JustRecorded(create: NetworkCreate, cs: seq<Command>, j: nat, row: Row)
    requires AllValid(cs) && j < |cs|
    requires row in FreshRows(Run(Created(create), cs, j), cs[j])
    ensures RecordedBy(Created(create), cs, j, row)
  {
    hide Step;
    hide Run;
  }
}

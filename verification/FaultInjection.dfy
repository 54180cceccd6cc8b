/** Fault injection and bus-off recovery. */
module FaultInjection {
  import opened Basics
  import opened Schemas
  import opened CanTiming
  import opened ErrorConfinement
  import opened Store

  /** A transmission fault targets the producer of the contract, every other fault one of its consumers. */
  predicate ProperTarget(c: InjectCommand, contract: FrameContract) {
    if c.fault.TransmissionError? then c.target == contract.producer else c.target in contract.consumers
  }

  function InjectionResult(n: Net, c: InjectCommand): FaultResult {
    var before := NodeErrorState(n.errorStates, c.target);
    var tec := before.tec + (if c.fault.TransmissionError? then 8 * c.occurrences else 0);
    var rec := before.rec + (if c.fault.ReceptionError? then c.occurrences else 0);
    var errorFrames := if c.fault.FrameLoss? then 0 else c.occurrences;
    FaultResult(errorFrames, if c.fault.FrameLoss? then c.occurrences else 0,
                c.advance + DurationUs(14 * errorFrames, n.rates.nominal), before, NewErrorState(tec, rec))
  }

  function RecoveryResult(n: Net, c: RecoverCommand): FaultResult {
    FaultResult(0, 0, DurationUs(c.recessiveSequences * 11, n.rates.nominal),
                NodeErrorState(n.errorStates, c.target), NewErrorState(0, 0))
  }

  function Apply(l: Ledger, commandId: string, target: NodeId, request: FaultRequest, result: FaultResult): Applied {
    var n := l.net;
    var row := FaultRow(commandId, target, request, result, n.version, n.version + 1);
    Record(l, n.(errorStates := n.errorStates[target := result.after], version := n.version + 1,
                 time := n.time + result.elapsed),
           [row], row)
  }

  function Replay(l: Ledger, existing: Row, request: FaultRequest): Applied {
    if existing.FaultRow? && existing.fault == request then Applied(l, Replayed(existing))
    else Reject(l, FaultCommandConflict)
  }

  function InjectFault(l: Ledger, c: InjectCommand): Applied {
    match Find(l.rows, Faults, c.commandId)
    case Some(row) => Replay(l, row, Inject(c))
    case None =>
      if c.expectedVersion != l.net.version then Reject(l, VersionConflict(l.net.version)) else
        match FindContract(l.net.contracts, c.contractId)
        case None => Reject(l, UnknownContract)
        case Some(contract) =>
          if !ProperTarget(c, contract) then Reject(l, WrongFaultTarget)
          else Apply(l, c.commandId, c.target, Inject(c), InjectionResult(l.net, c))
  }

  function RecoverNode(l: Ledger, c: RecoverCommand): Applied {
    match Find(l.rows, Faults, c.commandId)
    case Some(row) => Replay(l, row, Recover(c))
    case None =>
      if c.expectedVersion != l.net.version then Reject(l, VersionConflict(l.net.version))
      else if !IsBusOff(l.net.errorStates, c.target) then Reject(l, NotBusOff)
      else Apply(l, c.commandId, c.target, Recover(c), RecoveryResult(l.net, c))
  }

  method ExecuteInjection(session: Session, network: CanNetwork, c: InjectCommand) returns (outcome: Outcome)
    modifies session, network
    ensures Applied(Snapshot(network, session), outcome) == InjectFault(old(Snapshot(network, session)), c)
  {
    var existing := Find(session.rows, Faults, c.commandId);
    if existing.Some? {
      return if existing.value.FaultRow? && existing.value.fault == Inject(c)
        then Replayed(existing.value) else Rejected(FaultCommandConflict);
    }
    if c.expectedVersion != network.version {
      return Rejected(VersionConflict(network.version));
    }
    var found := FindContract(network.frameContracts, c.contractId);
    if found.None? {
      return Rejected(UnknownContract);
    }
    if c.fault.TransmissionError? {
      if c.target != found.value.producer {
        return Rejected(WrongFaultTarget);
      }
    } else if c.target !in found.value.consumers {
      return Rejected(WrongFaultTarget);
    }
    var before := NodeErrorState(network.errorStates, c.target);
    var tec, rec := before.tec, before.rec;
    var errorFrames: nat, lostFrames: nat := 0, 0;
    if c.fault.TransmissionError? {
      tec := tec + 8 * c.occurrences;
      errorFrames := c.occurrences;
    } else if c.fault.ReceptionError? {
      rec := rec + c.occurrences;
      errorFrames := c.occurrences;
    } else {
      lostFrames := c.occurrences;
    }
    var after := NewErrorState(tec, rec);
    var elapsed := c.advance + DurationUs(14 * errorFrames, network.rates.nominal);
    var row := FaultRow(c.commandId, c.target, Inject(c), FaultResult(errorFrames, lostFrames, elapsed, before, after),
                        network.version, network.version + 1);
    network.errorStates := network.errorStates[c.target := after];
    network.version := network.version + 1;
    network.simulationTime := network.simulationTime + elapsed;
    session.Add(row);
    return Done(row);
  }

  method ExecuteRecovery(session: Session, network: CanNetwork, c: RecoverCommand) returns (outcome: Outcome)
    modifies session, network
    ensures Applied(Snapshot(network, session), outcome) == RecoverNode(old(Snapshot(network, session)), c)
  {
    var existing := Find(session.rows, Faults, c.commandId);
    if existing.Some? {
      return if existing.value.FaultRow? && existing.value.fault == Recover(c)
        then Replayed(existing.value) else Rejected(FaultCommandConflict);
    }
    if c.expectedVersion != network.version {
      return Rejected(VersionConflict(network.version));
    }
    var before := NodeErrorState(network.errorStates, c.target);
    if before.mode != BusOff {
      return Rejected(NotBusOff);
    }
    var after := NewErrorState(0, 0);
    var elapsed := DurationUs(c.recessiveSequences * 11, network.rates.nominal);
    var row := FaultRow(c.commandId, c.target, Recover(c), FaultResult(0, 0, elapsed, before, after),
                        network.version, network.version + 1);
    network.errorStates := network.errorStates[c.target := after];
    network.version := network.version + 1;
    network.simulationTime := network.simulationTime + elapsed;
    session.Add(row);
    return Done(row);
  }

  /** A fault is injected exactly when its id is free, its version current, and its target proper for the contract. */
  lemma InjectAcceptsExactly(l: Ledger, c: InjectCommand)
    ensures InjectFault(l, c).outcome.Done? <==>
            && Find(l.rows, Faults, c.commandId).None?
            && c.expectedVersion == l.net.version
            && exists contract :: FindContract(l.net.contracts, c.contractId) == Some(contract)
                 && (c.fault.TransmissionError? ==> c.target == contract.producer)
                 && (!c.fault.TransmissionError? ==> c.target in contract.consumers)
  {
    hide Find;
    hide FindContract;
  }

  /** Recovery is possible exactly from bus-off, that is from a TEC of 256 on, and clears both counters. */
  lemma RecoverAcceptsExactly(l: Ledger, c: RecoverCommand)
    ensures RecoverNode(l, c).outcome.Done? <==>
            && Find(l.rows, Faults, c.commandId).None?
            && c.expectedVersion == l.net.version
            && NodeErrorState(l.net.errorStates, c.target).tec >= 256
    ensures RecoverNode(l, c).outcome.Done? ==>
            NodeErrorState(RecoverNode(l, c).ledger.net.errorStates, c.target) == ErrorState(0, 0, ErrorActive)
  {
    hide Find;
  }

  // ---------- splitting an injection ----------

  /** Elapsed time of the same error frames injected one command per element of `parts`. */
  function SplitElapsed(parts: seq<nat>, kbps: Positive): nat {
    if parts == [] then 0 else
      SplitElapsed(parts[..|parts| - 1], kbps) + DurationUs(14 * parts[|parts| - 1], kbps)
  }

  lemma {:induction false} SplitElapsedBounds(parts: seq<nat>, kbps: Positive)
    requires parts != []
    ensures DurationUs(14 * Sum(parts), kbps) <= SplitElapsed(parts, kbps)
    ensures SplitElapsed(parts, kbps) <= DurationUs(14 * Sum(parts), kbps) + |parts| - 1
  {
    hide CeilDiv;
    var rest, last := parts[..|parts| - 1], parts[|parts| - 1];
    if rest == [] {
      assert Sum(rest) == 0 && SplitElapsed(rest, kbps) == 0;
    } else {
      SplitElapsedBounds(rest, kbps);
      CeilDivSplit(14 * Sum(rest) * 1000, 14 * last * 1000, kbps);
    }
  }

  /** Piece j of an injection: its share of the occurrences, with the advance of time in the first piece only. */
  function Piece(c: InjectCommand, ids: seq<string>, parts: seq<Positive>, j: nat): InjectCommand
    requires |ids| == |parts| && j < |parts|
  {
    InjectCommand(ids[j], c.expectedVersion + j, c.contractId, c.target, c.fault, parts[j],
                  if j == 0 then c.advance else 0)
  }

  /** The ledger after the first k pieces, one command each. */
  function InPieces(l: Ledger, c: InjectCommand, ids: seq<string>, parts: seq<Positive>, k: nat): Ledger
    requires |ids| == |parts| && k <= |parts|
  {
    if k == 0 then l else InjectFault(InPieces(l, c, ids, parts, k - 1), Piece(c, ids, parts, k - 1)).ledger
  }

  /** Saturating between pieces loses nothing. */
  lemma ClampAdds(tec: nat, rec: nat, moreTec: nat, moreRec: nat)
    ensures var s := NewErrorState(tec, rec);
            NewErrorState(s.tec + moreTec, s.rec + moreRec) == NewErrorState(tec + moreTec, rec + moreRec)
  {}

  /** The error state of the target after the given number of occurrences. */
  function AfterOccurrences(n: Net, c: InjectCommand, occurrences: nat): ErrorState {
    var before := NodeErrorState(n.errorStates, c.target);
    NewErrorState(before.tec + (if c.fault.TransmissionError? then 8 * occurrences else 0),
                  before.rec + (if c.fault.ReceptionError? then occurrences else 0))
  }

  /** Error frames that the given occurrences put on the bus. */
  function Frames(c: InjectCommand, occurrences: nat): nat {
    if c.fault.FrameLoss? then 0 else occurrences
  }

  function PartFrames(c: InjectCommand, parts: seq<Positive>): seq<nat> {
    seq(|parts|, i requires 0 <= i < |parts| => Frames(c, parts[i]))
  }

  lemma {:induction false} SumOfFrames(c: InjectCommand, parts: seq<Positive>)
    ensures Sum(PartFrames(c, parts)) == Frames(c, Sum(parts))
  {
    if parts != [] {
      var rest := parts[..|parts| - 1];
      SumOfFrames(c, rest);
      assert PartFrames(c, parts)[..|parts| - 1] == PartFrames(c, rest);
    }
  }

  /** None of the ids names a recorded fault, and no two are the same. */
  ghost predicate FreshIds(rows: seq<Row>, ids: seq<string>) {
    && (forall i, j :: 0 <= i < j < |ids| ==> ids[i] != ids[j])
    && (forall i :: 0 <= i < |ids| ==> Find(rows, Faults, ids[i]).None?)
  }

  /** `m` is the network after the first k pieces, and the ids of the others are still free. */
  ghost predicate Injected(l: Ledger, c: InjectCommand, ids: seq<string>, parts: seq<Positive>, k: nat, m: Ledger)
    requires |ids| == |parts| && 0 < k <= |parts|
  {
    && m.net == l.net.(errorStates := l.net.errorStates[c.target := AfterOccurrences(l.net, c, Sum(parts[..k]))],
                       version := l.net.version + k,
                       time := l.net.time + c.advance + SplitElapsed(PartFrames(c, parts[..k]), l.net.rates.nominal))
    && forall i :: k <= i < |ids| ==> Find(m.rows, Faults, ids[i]).None?
  }

  predicate Proper(n: Net, c: InjectCommand) {
    FindContract(n.contracts, c.contractId).Some? && ProperTarget(c, FindContract(n.contracts, c.contractId).value)
  }

  /** What one accepted injection does. */
  lemma InjectOnce(l: Ledger, c: InjectCommand)
    requires Find(l.rows, Faults, c.commandId).None? && c.expectedVersion == l.net.version && Proper(l.net, c)
    ensures var a := InjectFault(l, c);
            && a.outcome.Done? && a.outcome.row.Is(Faults, c.commandId) && a.ledger.rows == l.rows + [a.outcome.row]
            && a.ledger.net ==
                 l.net.(errorStates := l.net.errorStates[c.target := AfterOccurrences(l.net, c, c.occurrences)],
                        version := l.net.version + 1,
                        time := l.net.time + c.advance
                                + DurationUs(14 * Frames(c, c.occurrences), l.net.rates.nominal))
  {}

  lemma IdsStayFree(rows: seq<Row>, row: Row, ids: seq<string>, k: nat)
    requires forall i, j :: 0 <= i < j < |ids| ==> ids[i] != ids[j]
    requires forall i :: k <= i < |ids| ==> Find(rows, Faults, ids[i]).None?
    requires k < |ids| && row.Is(Faults, ids[k])
    ensures forall i :: k + 1 <= i < |ids| ==> Find(rows + [row], Faults, ids[i]).None?
  {
    forall i | k + 1 <= i < |ids| ensures Find(rows + [row], Faults, ids[i]).None? {
      FindAppend(rows, [row], Faults, ids[i]);
    }
  }

  lemma SumStep(parts: seq<Positive>, k: nat)
    requires k < |parts|
    ensures Sum(parts[..0]) == 0
    ensures Sum(parts[..k + 1]) == Sum(parts[..k]) + parts[k]
  {
    assert parts[..k + 1][..k] == parts[..k];
  }

  lemma ElapsedStep(c: InjectCommand, parts: seq<Positive>, k: nat, kbps: Positive)
    requires k < |parts|
    ensures SplitElapsed(PartFrames(c, parts[..0]), kbps) == 0
    ensures SplitElapsed(PartFrames(c, parts[..k + 1]), kbps) ==
            SplitElapsed(PartFrames(c, parts[..k]), kbps) + DurationUs(14 * Frames(c, parts[k]), kbps)
  {
    hide DurationUs;
    assert PartFrames(c, parts[..k + 1])[..k] == PartFrames(c, parts[..k]);
    assert PartFrames(c, parts[..k + 1])[k] == Frames(c, parts[k]);
  }

  lemma NextPiece(l: Ledger, c: InjectCommand, ids: seq<string>, parts: seq<Positive>, k: nat)
    requires |ids| == |parts| && k < |parts|
    ensures InPieces(l, c, ids, parts, 0) == l
    ensures InPieces(l, c, ids, parts, k + 1) ==
        InjectFault(InPieces(l, c, ids, parts, k), Piece(c, ids, parts, k)).ledger
  {
    hide InjectFault;
    hide Piece;
  }

  lemma SameFault(n: Net, c: InjectCommand, piece: InjectCommand, occurrences: nat)
    requires piece.target == c.target && piece.fault == c.fault
    ensures AfterOccurrences(n, piece, occurrences) == AfterOccurrences(n, c, occurrences)
  {}

  lemma FirstPiece(l: Ledger, c: InjectCommand, ids: seq<string>, parts: seq<Positive>)
    requires |ids| == |parts| > 0 && FreshIds(l.rows, ids)
    requires c.expectedVersion == l.net.version && Proper(l.net, c)
    ensures Injected(l, c, ids, parts, 1, InjectFault(l, Piece(c, ids, parts, 0)).ledger)
  {
    hide InjectFault;
    hide DurationUs;
    hide AfterOccurrences;
    hide FindContract;
    hide Find;
    hide Sum;
    hide SplitElapsed;
    hide PartFrames;
    var piece := Piece(c, ids, parts, 0);
    SameFault(l.net, c, piece, piece.occurrences);
    InjectOnce(l, piece);
    IdsStayFree(l.rows, InjectFault(l, piece).outcome.row, ids, 0);
    SumStep(parts, 0);
    ElapsedStep(c, parts, 0, l.net.rates.nominal);
  }

  lemma MorePieces(l: Ledger, c: InjectCommand, ids: seq<string>, parts: seq<Positive>, k: nat)
    requires |ids| == |parts| && 0 < k < |parts| && FreshIds(l.rows, ids)
    requires c.expectedVersion == l.net.version && Proper(l.net, c)
    requires Injected(l, c, ids, parts, k, InPieces(l, c, ids, parts, k))
    ensures Injected(l, c, ids, parts, k + 1, InPieces(l, c, ids, parts, k + 1))
  {
    hide InPieces;
    hide InjectFault;
    hide DurationUs;
    hide AfterOccurrences;
    hide Find;
    hide Sum;
    hide SplitElapsed;
    hide PartFrames;
    var m, piece := InPieces(l, c, ids, parts, k), Piece(c, ids, parts, k);
    NextPiece(l, c, ids, parts, k);
    InjectOnce(m, piece);
    IdsStayFree(m.rows, InjectFault(m, piece).outcome.row, ids, k);
    OccurrencesAdd(l.net, m.net, c, piece, Sum(parts[..k]));
    SumStep(parts, k);
    ElapsedStep(c, parts, k, l.net.rates.nominal);
  }

  lemma OccurrencesAdd(n: Net, m: Net, c: InjectCommand, piece: InjectCommand, sofar: nat)
    requires piece.target == c.target && piece.fault == c.fault
    requires m.errorStates == n.errorStates[c.target := AfterOccurrences(n, c, sofar)]
    ensures AfterOccurrences(m, piece, piece.occurrences) == AfterOccurrences(n, c, sofar + piece.occurrences)
  {
    var before := NodeErrorState(n.errorStates, c.target);
    var tec := before.tec + (if c.fault.TransmissionError? then 8 * sofar else 0);
    var rec := before.rec + (if c.fault.ReceptionError? then sofar else 0);
    ClampKeepsMode(n.errorStates, c.target, tec, rec);
    ClampAdds(tec, rec, if c.fault.TransmissionError? then 8 * piece.occurrences else 0,
              if c.fault.ReceptionError? then piece.occurrences else 0);
  }

  lemma {:induction false} AllPieces(l: Ledger, c: InjectCommand, ids: seq<string>, parts: seq<Positive>, k: nat)
    requires |ids| == |parts| && 0 < k <= |parts| && FreshIds(l.rows, ids)
    requires c.expectedVersion == l.net.version && Proper(l.net, c)
    ensures Injected(l, c, ids, parts, k, InPieces(l, c, ids, parts, k))
  {
    hide *;
    if k == 1 {
      FirstPiece(l, c, ids, parts);
      NextPiece(l, c, ids, parts, 0);
    } else {
      AllPieces(l, c, ids, parts, k - 1);
      MorePieces(l, c, ids, parts, k - 1);
    }
  }

  /**
   * Injecting a fault in k pieces instead of at once leaves every node with the same error counters and
   * mode, and takes at least as long and at most k - 1 us longer.
   */
  lemma SplittingInjection(l: Ledger, c: InjectCommand, ids: seq<string>, parts: seq<Positive>)
    requires |ids| == |parts| > 0 && FreshIds(l.rows, ids)
    requires Sum(parts) == c.occurrences
    requires Find(l.rows, Faults, c.commandId).None? && c.expectedVersion == l.net.version && Proper(l.net, c)
    ensures var once, split := InjectFault(l, c).ledger.net, InPieces(l, c, ids, parts, |parts|).net;
            && split.errorStates == once.errorStates
            && once.time <= split.time <= once.time + |parts| - 1
            && split == once.(version := l.net.version + |parts|, time := split.time)
  {
    AllPieces(l, c, ids, parts, |parts|);
    InjectOnce(l, c);
    assert parts[..|parts|] == parts;
    SumOfFrames(c, parts);
    SplitElapsedBounds(PartFrames(c, parts), l.net.rates.nominal);
    hide InjectFault;
    hide InPieces;
    hide DurationUs;
    hide AfterOccurrences;
  }
}

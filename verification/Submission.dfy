/** Submitting one frame: an idempotent, optimistically versioned step. */
module Submission {
  import opened Basics
  import opened Schemas
  import opened ErrorConfinement
  import opened Store

  function SubmittedRow(n: Net, c: SubmitCommand, contract: FrameContract): Row {
    TransmissionRow(c.commandId, contract.identifier, c.producer, contract.frameId, contract.format, contract.protocol,
                    contract.bitrateSwitch, Direct(c), c.payload, n.nextSequence, n.time + c.advance,
                    n.version, n.version + 1)
  }

  function Submit(l: Ledger, c: SubmitCommand): Applied {
    match Find(l.rows, Transmissions, c.commandId)
    case Some(row) =>
      if row.TransmissionRow? && row.request == Direct(c) then Applied(l, Replayed(row))
      else Reject(l, FrameCommandConflict)
    case None =>
      var n := l.net;
      if c.expectedVersion != n.version then Reject(l, VersionConflict(n.version)) else
        match FindContract(n.contracts, c.contractId)
        case None => Reject(l, UnknownContract)
        case Some(contract) =>
          if c.producer != contract.producer then Reject(l, ForeignProducer)
          else if IsBusOff(n.errorStates, c.producer) then Reject(l, NodeBusOff)
          else if |c.payload| != contract.dlc then Reject(l, WrongPayloadLength)
          else
            var row := SubmittedRow(n, c, contract);
            Record(l, n.(time := n.time + c.advance, nextSequence := n.nextSequence + 1,
                         version := n.version + 1), [row], row)
  }

  method SubmitFrame(session: Session, network: CanNetwork, c: SubmitCommand) returns (outcome: Outcome)
    modifies session, network
    ensures Applied(Snapshot(network, session), outcome) == Submit(old(Snapshot(network, session)), c)
  {
    var existing := Find(session.rows, Transmissions, c.commandId);
    if existing.Some? {
      if existing.value.TransmissionRow? && existing.value.request == Direct(c) {
        return Replayed(existing.value);
      }
      return Rejected(FrameCommandConflict);
    }
    if c.expectedVersion != network.version {
      return Rejected(VersionConflict(network.version));
    }
    var found := FindContract(network.frameContracts, c.contractId);
    if found.None? {
      return Rejected(UnknownContract);
    }
    var contract := found.value;
    if c.producer != contract.producer {
      return Rejected(ForeignProducer);
    }
    if IsBusOff(network.errorStates, c.producer) {
      return Rejected(NodeBusOff);
    }
    if |c.payload| != contract.dlc {
      return Rejected(WrongPayloadLength);
    }
    var transmissionTime := network.simulationTime + c.advance;
    var row := TransmissionRow(
      c.commandId, contract.identifier, c.producer, contract.frameId, contract.format, contract.protocol,
      contract.bitrateSwitch, Direct(c), c.payload, network.nextSequence, transmissionTime,
      network.version, network.version + 1);
    network.simulationTime := transmissionTime;
    network.nextSequence := network.nextSequence + 1;
    network.version := network.version + 1;
    session.Add(row);
    return Done(row);
  }

  /** A frame is accepted exactly when nothing took its id and its version, producer, bus state and length are right. */
  lemma SubmitAcceptsExactly(l: Ledger, c: SubmitCommand)
    ensures Submit(l, c).outcome.Done? <==>
            && Find(l.rows, Transmissions, c.commandId).None?
            && c.expectedVersion == l.net.version
            && exists contract :: contract in l.net.contracts
                 && FindContract(l.net.contracts, c.contractId) == Some(contract)
                 && contract.producer == c.producer && contract.dlc == |c.payload|
                 && DeriveErrorMode(NodeErrorState(l.net.errorStates, c.producer).tec,
                                    NodeErrorState(l.net.errorStates, c.producer).rec) != BusOff
  {}
}

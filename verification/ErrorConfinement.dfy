/**
 * TEC/REC error states: a simplified form of section 8 (Fault Confinement) of the Bosch CAN Specification 2.0
 * Part B.
 */
module ErrorConfinement {
  import opened Basics
  import opened Schemas

  function DeriveErrorMode(tec: nat, rec: nat): ErrorMode {
    if tec >= 256 then BusOff
    else if tec >= 128 || rec >= 128 then ErrorPassive
    else ErrorActive
  }

  function NodeErrorState(states: map<NodeId, ErrorState>, node: NodeId): ErrorState {
    var tec := if node in states then states[node].tec else 0;
    var rec := if node in states then states[node].rec else 0;
    ErrorState(tec, rec, DeriveErrorMode(tec, rec))
  }

  /** Counters saturate at 256 and 255, but the mode is derived from the unsaturated ones. */
  function NewErrorState(tec: nat, rec: nat): ErrorState {
    ErrorState(Min(tec, 256), Min(rec, 255), DeriveErrorMode(tec, rec))
  }

  predicate IsBusOff(states: map<NodeId, ErrorState>, node: NodeId) {
    NodeErrorState(states, node).mode.BusOff?
  }

  /** Saturating the counters never changes the derived mode, so a stored state reads back as it was set. */
  lemma ClampKeepsMode(states: map<NodeId, ErrorState>, node: NodeId, tec: nat, rec: nat)
    ensures NodeErrorState(states[node := NewErrorState(tec, rec)], node) == NewErrorState(tec, rec)
  {}

  /** How restricted a node is. */
  function Severity(m: ErrorMode): nat {
    match m
    case ErrorActive => 0
    case ErrorPassive => 1
    case BusOff => 2
  }

  lemma MoreErrorsNeverHelp(tec: nat, rec: nat, moreTec: nat, moreRec: nat)
    requires tec <= moreTec && rec <= moreRec
    ensures Severity(DeriveErrorMode(tec, rec)) <= Severity(DeriveErrorMode(moreTec, moreRec))
  {}
}

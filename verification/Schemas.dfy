/**
 * Value types of the CAN network: frame contracts, LIN and Ethernet contracts, gateway routes and
 * the commands that act on a network, with the constraints their schemas put on them.
 */
module Schemas {
  import opened Basics

  type NodeId = string
  type Byte = bv8

  // ---------- CAN ----------

  datatype FrameFormat = Standard | Extended

  datatype FrameProtocol = Classic | Fd

  datatype FrameContract = FrameContract(
    identifier: string,
    frameId: nat,
    format: FrameFormat,
    protocol: FrameProtocol,
    dlc: nat,
    bitrateSwitch: bool,
    producer: NodeId,
    consumers: seq<NodeId>)

  datatype NodeRole = Participant | Gateway | Monitor

  datatype Node = Node(ecuId: NodeId, role: NodeRole)

  datatype SubmitCommand = SubmitCommand(
    commandId: string,
    expectedVersion: nat,
    contractId: string,
    producer: NodeId,
    payload: seq<Byte>,
    advance: nat)

  datatype ContenderRequest = ContenderRequest(
    contractId: string,
    producer: NodeId,
    payload: seq<Byte>,
    readyOffset: nat)

  datatype ArbitrationCommand = ArbitrationCommand(
    commandId: string,
    expectedVersion: nat,
    contenders: seq<ContenderRequest>)
  {
    /** At least one contender, and no contract contends twice. */
    predicate Valid() {
      && |contenders| > 0
      && forall i, j :: 0 <= i < j < |contenders| ==> contenders[i].contractId != contenders[j].contractId
    }
  }

  // ---------- Fault confinement ----------

  datatype ErrorMode = ErrorActive | ErrorPassive | BusOff

  datatype ErrorState = ErrorState(tec: nat, rec: nat, mode: ErrorMode)

  datatype FaultType = TransmissionError | ReceptionError | FrameLoss

  datatype InjectCommand = InjectCommand(
    commandId: string,
    expectedVersion: nat,
    contractId: string,
    target: NodeId,
    fault: FaultType,
    occurrences: Positive,
    advance: nat)

  datatype RecoverCommand = RecoverCommand(
    commandId: string,
    expectedVersion: nat,
    target: NodeId,
    recessiveSequences: nat)

  // ---------- LIN, Ethernet and gateway routes ----------

  datatype BusProtocol = Can | Lin | Ethernet

  datatype LinFrame = LinFrame(
    identifier: string,
    publisher: NodeId,
    subscribers: seq<NodeId>,
    payloadLength: Positive)

  datatype LinChannel = LinChannel(
    identifier: string,
    bitrateKbps: Positive,
    master: NodeId,
    frames: seq<LinFrame>)

  datatype EthernetMessage = EthernetMessage(
    identifier: string,
    source: NodeId,
    destinations: seq<NodeId>,
    payloadLength: Positive)

  datatype EthernetSegment = EthernetSegment(
    identifier: string,
    speedMbps: Positive,
    messages: seq<EthernetMessage>)

  datatype Route = Route(
    identifier: string,
    gateway: NodeId,
    sourceProtocol: BusProtocol,
    sourceContractId: string,
    destinationProtocol: BusProtocol,
    destinationContractId: string)

  datatype ConfigureCommand = ConfigureCommand(
    commandId: string,
    expectedVersion: nat,
    linChannels: seq<LinChannel>,
    ethernetSegments: seq<EthernetSegment>,
    routes: seq<Route>)
  {
    /** Every route connects two different protocols. */
    predicate Valid() {
      forall i :: 0 <= i < |routes| ==> routes[i].sourceProtocol != routes[i].destinationProtocol
    }
  }

  datatype RouteCommand = RouteCommand(
    commandId: string,
    expectedVersion: nat,
    routeId: string,
    payload: seq<Byte>,
    advance: nat)

  datatype CampaignFault = NoFault | LostFrame | GatewayUnavailable

  datatype CampaignStep = CampaignStep(
    identifier: string,
    routeId: string,
    payload: seq<Byte>,
    advance: nat,
    latencyBudget: Option<nat>,
    fault: CampaignFault)

  datatype CampaignCommand = CampaignCommand(
    commandId: string,
    expectedVersion: nat,
    steps: seq<CampaignStep>)
}

/**
 * The state every service acts on: one CAN network and the rows the services have recorded.
 * `Ledger` is a snapshot of both; `CanNetwork` and `Session` are the objects the services update.
 */
module Store {
  import opened Basics
  import opened Schemas
  import opened CanTiming
  import opened DbcCodec

  // ---------- recorded results ----------

  datatype Delivery = Delivery(consumer: NodeId, receivedAt: nat, latency: int)

  datatype ArbitratedFrame = ArbitratedFrame(
    rank: nat,
    sequence: nat,
    contract: FrameContract,
    producer: NodeId,
    timing: Timing,
    readyAt: nat,
    startedAt: nat,
    completedAt: nat,
    deliveries: seq<Delivery>)

  datatype Utilization = Utilization(
    windowStart: nat,
    windowEnd: nat,
    occupied: nat,
    idle: int,
    percent: real,
    maximumLatency: int)

  datatype FaultResult = FaultResult(
    errorFrames: nat,
    lostFrames: nat,
    elapsed: nat,
    before: ErrorState,
    after: ErrorState)

  /** Bits of a routed frame, and the nominal bitrate (kbit/s), LIN bitrate or Ethernet speed (Mbit/s) of its bus. */
  datatype BusTiming = BusTiming(bitCount: nat, rate: Positive)

  datatype RouteResult = RouteResult(
    sequence: nat,
    route: Route,
    payloadLength: nat,
    startedAt: nat,
    completedAt: nat,
    duration: nat,
    timing: BusTiming)

  datatype StepOutcome = Delivered | PerformanceViolation | Failed(reason: CampaignFault)

  datatype Trace = Trace(
    step: nat,
    stepId: string,
    route: Route,
    payloadLength: nat,
    fault: CampaignFault,
    outcome: StepOutcome,
    budgetExceeded: bool,
    sequence: Option<nat>,
    startedAt: nat,
    completedAt: nat,
    duration: nat,
    timing: Option<BusTiming>)

  datatype CampaignStatus = Passed | PerformanceDegraded | CampaignFailed

  datatype CampaignResult = CampaignResult(
    status: CampaignStatus,
    stepCount: nat,
    delivered: nat,
    failed: nat,
    violations: nat,
    protocolCounts: map<BusProtocol, nat>,
    startedAt: nat,
    completedAt: nat,
    window: int,
    occupied: nat,
    idle: nat,
    percent: real,
    maximumLatency: nat,
    p95Latency: nat,
    traces: seq<Trace>)

  // ---------- rows ----------

  /** A transmission records either the submit command itself or its place in an arbitration. */
  datatype TransmissionRequest = Direct(command: SubmitCommand) | Arbitrated(arbitrationId: string, readyAt: nat)

  datatype FaultRequest = Inject(injection: InjectCommand) | Recover(recovery: RecoverCommand)

  datatype GatewayRequest = Configure(configuration: ConfigureCommand) | RouteFrame(routing: RouteCommand)

  datatype CodecRequest =
    | EncodeRequest(commandId: string, contractId: string, values: map<string, real>)
    | DecodeRequest(commandId: string, contractId: string, payload: seq<Byte>)

  datatype Table = Transmissions | Arbitrations | Faults | GatewayExecutions | Campaigns | Catalogues | CodecExecutions

  datatype Row =
    | TransmissionRow(commandId: string, contractId: string, producer: NodeId, frameId: nat, format: FrameFormat,
                      protocol: FrameProtocol, bitrateSwitch: bool, request: TransmissionRequest,
                      payload: seq<Byte>, sequence: nat, time: nat, previousVersion: nat, networkVersion: nat)
    | ArbitrationRow(commandId: string, arbitration: ArbitrationCommand, frames: seq<ArbitratedFrame>,
                     utilization: Utilization, previousVersion: nat, networkVersion: nat)
    | FaultRow(commandId: string, target: NodeId, fault: FaultRequest, faultResult: FaultResult,
               previousVersion: nat, networkVersion: nat)
    | GatewayRow(commandId: string, gateway: GatewayRequest, routed: Option<RouteResult>,
                 previousVersion: nat, networkVersion: nat)
    | CampaignRow(commandId: string, campaign: CampaignCommand, campaignResult: CampaignResult,
                  previousVersion: nat, networkVersion: nat)
    | CatalogueRow(identifier: string, messages: seq<Message>, networkVersion: nat)
    | CodecRow(commandId: string, codec: CodecRequest, payload: seq<Byte>, raws: map<string, int>,
               physicals: map<string, real>)
  {
    function Table(): Table {
      match this
      case TransmissionRow(_, _, _, _, _, _, _, _, _, _, _, _, _) => Transmissions
      case ArbitrationRow(_, _, _, _, _, _) => Arbitrations
      case FaultRow(_, _, _, _, _, _) => Faults
      case GatewayRow(_, _, _, _, _) => GatewayExecutions
      case CampaignRow(_, _, _, _, _) => Campaigns
      case CatalogueRow(_, _, _) => Catalogues
      case CodecRow(_, _, _, _, _) => CodecExecutions
    }

    /** The unique key within its table; a network has at most one catalogue. */
    function Key(): string {
      if CatalogueRow? then "" else this.commandId
    }

    predicate Is(t: Table, key: string) {
      Table() == t && Key() == key
    }
  }

  function Find(rows: seq<Row>, t: Table, key: string): Option<Row> {
    if rows == [] then None
    else if rows[0].Is(t, key) then Some(rows[0])
    else Find(rows[1..], t, key)
  }

  lemma {:induction false} FindAppend(a: seq<Row>, b: seq<Row>, t: Table, key: string)
    ensures Find(a + b, t, key) == if Find(a, t, key).Some? then Find(a, t, key) else Find(b, t, key)
  {
    if a == [] {
      assert a + b == b;
    } else {
      assert (a + b)[1..] == a[1..] + b;
      FindAppend(a[1..], b, t, key);
    }
  }

  lemma {:induction false} FindIff(rows: seq<Row>, t: Table, key: string)
    ensures Find(rows, t, key).Some? ==> Find(rows, t, key).value in rows && Find(rows, t, key).value.Is(t, key)
    ensures Find(rows, t, key).None? <==> forall i :: 0 <= i < |rows| ==> !rows[i].Is(t, key)
  {
    if rows != [] {
      FindIff(rows[1..], t, key);
      assert forall i :: 0 < i < |rows| ==> rows[i] == rows[1..][i - 1];
      if !rows[0].Is(t, key) && Find(rows[1..], t, key).Some? {
        var i :| 0 <= i < |rows[1..]| && rows[1..][i].Is(t, key);
        assert rows[i + 1].Is(t, key);
      }
    }
  }

  // ---------- snapshots ----------

  datatype Net = Net(
    rates: Rates,
    nodes: seq<Node>,
    contracts: seq<FrameContract>,
    errorStates: map<NodeId, ErrorState>,
    linChannels: seq<LinChannel>,
    ethernetSegments: seq<EthernetSegment>,
    routes: seq<Route>,
    version: nat,
    time: nat,
    nextSequence: nat)

  datatype Ledger = Ledger(net: Net, rows: seq<Row>)

  function FindContract(contracts: seq<FrameContract>, identifier: string): (r: Option<FrameContract>)
    ensures r.Some? ==> r.value in contracts && r.value.identifier == identifier
  {
    if contracts == [] then None
    else if contracts[0].identifier == identifier then Some(contracts[0])
    else FindContract(contracts[1..], identifier)
  }

  /** The first contract of that name is found, and none is exactly if none has it. */
  lemma {:induction false} FindContractExactly(contracts: seq<FrameContract>, identifier: string, c: FrameContract)
    ensures FindContract(contracts, identifier) == Some(c) <==>
            exists i :: 0 <= i < |contracts| && contracts[i] == c && c.identifier == identifier
              && forall j :: 0 <= j < i ==> contracts[j].identifier != identifier
    ensures FindContract(contracts, identifier).None? <==>
            forall i :: 0 <= i < |contracts| ==> contracts[i].identifier != identifier
  {
    if contracts != [] && contracts[0].identifier != identifier {
      var rest := contracts[1..];
      FindContractExactly(rest, identifier, c);
      assert forall i :: 0 < i < |contracts| ==> contracts[i] == rest[i - 1];
      if FindContract(rest, identifier) == Some(c) {
        var i :| 0 <= i < |rest| && rest[i] == c && forall j :: 0 <= j < i ==> rest[j].identifier != identifier;
        assert contracts[i + 1] == c;
      }
    }
  }

  // ---------- outcomes ----------

  datatype Error =
    | VersionConflict(current: nat)
    | FrameCommandConflict
    | ArbitrationCommandConflict
    | FaultCommandConflict
    | GatewayCommandConflict
    | CampaignCommandConflict
    | CodecCommandConflict
    | DuplicateTransmission      // the store's unique constraint on transmission command ids
    | UnknownContract
    | ForeignProducer
    | NodeBusOff
    | WrongPayloadLength
    | WrongFaultTarget
    | NotBusOff
    | DuplicateTransportContract
    | UnknownLinNode
    | UnknownEthernetNode
    | DuplicateRoute
    | NotAGateway
    | UnknownTransportContract
    | UnequalPayloadLengths
    | UnknownRoute
    | UnknownDestination
    | InvalidStepRoute(step: string)
    | InvalidStepPayload(step: string)
    | CatalogueExists
    | InvalidLayout(layout: LayoutError)
    | NoCatalogue
    | NoMessage
    | Codec(codecError: CodecError)

  /** A command takes effect, repeats a recorded result, or is rejected. */
  datatype Outcome = Done(row: Row) | Replayed(row: Row) | Rejected(error: Error)

  datatype Applied = Applied(ledger: Ledger, outcome: Outcome)

  function Reject(l: Ledger, e: Error): Applied {
    Applied(l, Rejected(e))
  }

  function Record(l: Ledger, net: Net, rows: seq<Row>, row: Row): Applied {
    Applied(Ledger(net, l.rows + rows), Done(row))
  }

  // ---------- objects ----------

  datatype NetworkCreate = NetworkCreate(rates: Rates, nodes: seq<Node>, contracts: seq<FrameContract>)

  function InitialNet(c: NetworkCreate): Net {
    Net(c.rates, c.nodes, c.contracts, map[], [], [], [], 1, 0, 1)
  }

  class CanNetwork {
    const rates: Rates
    const nodes: seq<Node>
    const frameContracts: seq<FrameContract>
    var errorStates: map<NodeId, ErrorState>
    var linChannels: seq<LinChannel>
    var ethernetSegments: seq<EthernetSegment>
    var gatewayRoutes: seq<Route>
    var version: nat
    var simulationTime: nat
    var nextSequence: nat

    constructor (c: NetworkCreate)
      ensures View() == InitialNet(c)
    {
      rates, nodes, frameContracts := c.rates, c.nodes, c.contracts;
      errorStates := map[];
      linChannels, ethernetSegments, gatewayRoutes := [], [], [];
      version, simulationTime, nextSequence := 1, 0, 1;
    }

    function View(): Net
      reads this
    {
      Net(rates, nodes, frameContracts, errorStates, linChannels, ethernetSegments, gatewayRoutes,
          version, simulationTime, nextSequence)
    }
  }

  /** The tables; rows are only ever added. */
  class Session {
    var rows: seq<Row>

    constructor ()
      ensures rows == []
    {
      rows := [];
    }

    method Add(row: Row)
      modifies this
      ensures rows == old(rows) + [row]
    {
      rows := rows + [row];
    }
  }

  function Snapshot(network: CanNetwork, session: Session): Ledger
    reads network, session
  {
    Ledger(network.View(), session.rows)
  }
}

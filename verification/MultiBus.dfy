/** LIN and Ethernet contracts, gateway routes between buses, and executing one route. */
module MultiBus {
  import opened Basics
  import opened Schemas
  import opened CanTiming
  import opened Store

  // ---------- transport contracts ----------

  /** A LIN frame with its channel's bitrate, or an Ethernet message with its segment's speed. */
  datatype Transport = Transport(identifier: string, payloadLength: Positive, rate: Positive)

  function ChannelTransports(frames: seq<LinFrame>, rate: Positive): seq<Transport> {
    if frames == [] then [] else
      [Transport(frames[0].identifier, frames[0].payloadLength, rate)] + ChannelTransports(frames[1..], rate)
  }

  function LinTransports(channels: seq<LinChannel>): seq<Transport> {
    if channels == [] then [] else
      ChannelTransports(channels[0].frames, channels[0].bitrateKbps) + LinTransports(channels[1..])
  }

  function SegmentTransports(messages: seq<EthernetMessage>, rate: Positive): seq<Transport> {
    if messages == [] then [] else
      [Transport(messages[0].identifier, messages[0].payloadLength, rate)] + SegmentTransports(messages[1..], rate)
  }

  function EthernetTransports(segments: seq<EthernetSegment>): seq<Transport> {
    if segments == [] then [] else
      SegmentTransports(segments[0].messages, segments[0].speedMbps) + EthernetTransports(segments[1..])
  }

  predicate DistinctTransports(ts: seq<Transport>) {
    forall i, j :: 0 <= i < j < |ts| ==> ts[i].identifier != ts[j].identifier
  }

  /** The dictionary the validator looks contracts up in: for equal identifiers the last entry wins. */
  function Dictionary(ts: seq<Transport>): map<string, Transport> {
    if ts == [] then map[] else
      var last := ts[|ts| - 1];
      Dictionary(ts[..|ts| - 1])[last.identifier := last]
  }

  /** The search the executor does: the first entry wins. */
  function FindTransport(ts: seq<Transport>, identifier: string): (r: Option<Transport>)
    ensures r.Some? ==> r.value in ts && r.value.identifier == identifier
  {
    if ts == [] then None
    else if ts[0].identifier == identifier then Some(ts[0])
    else FindTransport(ts[1..], identifier)
  }

  lemma {:induction false} FindTransportAt(ts: seq<Transport>, i: nat)
    requires DistinctTransports(ts) && i < |ts|
    ensures FindTransport(ts, ts[i].identifier) == Some(ts[i])
  {
    if i > 0 {
      FindTransportAt(ts[1..], i - 1);
    }
  }

  lemma {:induction false} DictionaryEntries(ts: seq<Transport>)
    ensures forall id :: id in Dictionary(ts) ==> Dictionary(ts)[id] in ts && Dictionary(ts)[id].identifier == id
    ensures forall i :: 0 <= i < |ts| ==> ts[i].identifier in Dictionary(ts)
  {
    if ts != [] {
      DictionaryEntries(ts[..|ts| - 1]);
    }
  }

  /** With distinct identifiers, last-wins and first-wins lookups agree. */
  lemma LookupsAgree(ts: seq<Transport>, identifier: string)
    requires DistinctTransports(ts)
    ensures FindTransport(ts, identifier) ==
            if identifier in Dictionary(ts) then Some(Dictionary(ts)[identifier]) else None
  {
    DictionaryEntries(ts);
    if identifier in Dictionary(ts) {
      var i :| 0 <= i < |ts| && ts[i] == Dictionary(ts)[identifier];
      FindTransportAt(ts, i);
    }
  }

  // ---------- validating a configuration ----------

  function Roles(nodes: seq<Node>): map<NodeId, NodeRole> {
    if nodes == [] then map[] else
      var last := nodes[|nodes| - 1];
      Roles(nodes[..|nodes| - 1])[last.ecuId := last.role]
  }

  function AsSet(ids: seq<NodeId>): set<NodeId> {
    set id | id in ids
  }

  function LinReferences(master: NodeId, frames: seq<LinFrame>, k: nat): set<NodeId>
    requires k <= |frames|
  {
    if k == 0 then {master} else
      LinReferences(master, frames, k - 1) + {frames[k - 1].publisher} + AsSet(frames[k - 1].subscribers)
  }

  function EthernetReferences(messages: seq<EthernetMessage>, k: nat): set<NodeId>
    requires k <= |messages|
  {
    if k == 0 then {} else
      EthernetReferences(messages, k - 1) + {messages[k - 1].source} + AsSet(messages[k - 1].destinations)
  }

  predicate LinKnown(channel: LinChannel, known: set<NodeId>) {
    LinReferences(channel.master, channel.frames, |channel.frames|) <= known
  }

  predicate EthernetKnown(segment: EthernetSegment, known: set<NodeId>) {
    EthernetReferences(segment.messages, |segment.messages|) <= known
  }

  predicate DistinctRoutes(routes: seq<Route>) {
    forall i, j :: 0 <= i < j < |routes| ==> routes[i].identifier != routes[j].identifier
  }

  function PayloadLength(contracts: seq<FrameContract>, protocol: BusProtocol, identifier: string,
                         lin: map<string, Transport>, ethernet: map<string, Transport>): Result<nat, Error>
  {
    match protocol
    case Can =>
      (match FindContract(contracts, identifier)
       case None => Err(UnknownContract)
       case Some(c) => Ok(c.dlc))
    case Lin => if identifier in lin then Ok(lin[identifier].payloadLength) else Err(UnknownTransportContract)
    case Ethernet => if identifier in ethernet then Ok(ethernet[identifier].payloadLength)
        else Err(UnknownTransportContract)
  }

  function RouteError(n: Net, route: Route, lin: map<string, Transport>,
                      ethernet: map<string, Transport>): Option<Error> {
    var roles := Roles(n.nodes);
    if !(route.gateway in roles && roles[route.gateway] == Gateway) then Some(NotAGateway) else
      match PayloadLength(n.contracts, route.sourceProtocol, route.sourceContractId, lin, ethernet)
      case Err(e) => Some(e)
      case Ok(sourceLength) =>
        match PayloadLength(n.contracts, route.destinationProtocol, route.destinationContractId, lin, ethernet)
        case Err(e) => Some(e)
        case Ok(destinationLength) => if sourceLength != destinationLength then Some(UnequalPayloadLengths) else None
  }

  /** The error of the first of the first k routes that has one. */
  function FirstRouteError(n: Net, c: ConfigureCommand, k: nat): Option<Error>
    requires k <= |c.routes|
  {
    if k == 0 then None else
      match FirstRouteError(n, c, k - 1)
      case Some(e) => Some(e)
      case None =>
        RouteError(n, c.routes[k - 1], Dictionary(LinTransports(c.linChannels)),
                   Dictionary(EthernetTransports(c.ethernetSegments)))
  }

  function ConfigurationError(n: Net, c: ConfigureCommand): Option<Error> {
    var known := Roles(n.nodes).Keys;
    if !DistinctTransports(LinTransports(c.linChannels)) || !DistinctTransports(EthernetTransports(c.ethernetSegments))
    then Some(DuplicateTransportContract)
    else if exists i :: 0 <= i < |c.linChannels| && !LinKnown(c.linChannels[i], known) then Some(UnknownLinNode)
    else if exists i :: 0 <= i < |c.ethernetSegments| && !EthernetKnown(c.ethernetSegments[i], known)
    then Some(UnknownEthernetNode)
    else if !DistinctRoutes(c.routes) then Some(DuplicateRoute)
    else FirstRouteError(n, c, |c.routes|)
  }

  lemma {:induction false} RouteErrorStays(n: Net, c: ConfigureCommand, j: nat, k: nat)
    requires j <= k <= |c.routes| && FirstRouteError(n, c, j).Some?
    ensures FirstRouteError(n, c, k) == FirstRouteError(n, c, j)
    decreases k
  {
    if j < k {
      RouteErrorStays(n, c, j, k - 1);
    }
  }

  lemma {:induction false} NoRouteError(n: Net, c: ConfigureCommand, k: nat, i: nat)
    requires i < k <= |c.routes| && FirstRouteError(n, c, k).None?
    ensures RouteError(n, c.routes[i], Dictionary(LinTransports(c.linChannels)),
                       Dictionary(EthernetTransports(c.ethernetSegments))).None?
    decreases k
  {
    if i < k - 1 {
      NoRouteError(n, c, k - 1, i);
    }
  }

  method ChannelReferences(channel: LinChannel) returns (referenced: set<NodeId>)
    ensures referenced == LinReferences(channel.master, channel.frames, |channel.frames|)
  {
    referenced := {channel.master};
    for k := 0 to |channel.frames|
      invariant referenced == LinReferences(channel.master, channel.frames, k)
    {
      referenced := referenced + {channel.frames[k].publisher};
      referenced := referenced + set id | id in channel.frames[k].subscribers;
    }
  }

  method SegmentReferences(segment: EthernetSegment) returns (referenced: set<NodeId>)
    ensures referenced == EthernetReferences(segment.messages, |segment.messages|)
  {
    referenced := {};
    for k := 0 to |segment.messages|
      invariant referenced == EthernetReferences(segment.messages, k)
    {
      referenced := referenced + {segment.messages[k].source};
      referenced := referenced + set id | id in segment.messages[k].destinations;
    }
  }

  method ValidateConfiguration(n: Net, c: ConfigureCommand) returns (error: Option<Error>)
    ensures error == ConfigurationError(n, c)
  {
    hide RouteError;
    hide LinTransports;
    hide EthernetTransports;
    hide Dictionary;
    hide DistinctTransports;
    hide DistinctRoutes;
    var known := Roles(n.nodes).Keys;
    var linTransports, ethernetTransports := LinTransports(c.linChannels), EthernetTransports(c.ethernetSegments);
    if !DistinctTransports(linTransports) || !DistinctTransports(ethernetTransports) {
      return Some(DuplicateTransportContract);
    }
    for i := 0 to |c.linChannels|
      invariant forall j :: 0 <= j < i ==> LinKnown(c.linChannels[j], known)
    {
      var referenced := ChannelReferences(c.linChannels[i]);
      if !(referenced <= known) {
        return Some(UnknownLinNode);
      }
    }
    for i := 0 to |c.ethernetSegments|
      invariant forall j :: 0 <= j < i ==> EthernetKnown(c.ethernetSegments[j], known)
    {
      var referenced := SegmentReferences(c.ethernetSegments[i]);
      if !(referenced <= known) {
        return Some(UnknownEthernetNode);
      }
    }
    if !DistinctRoutes(c.routes) {
      return Some(DuplicateRoute);
    }
    for k := 0 to |c.routes|
      invariant FirstRouteError(n, c, k).None?
    {
      var found := RouteError(n, c.routes[k], Dictionary(linTransports), Dictionary(ethernetTransports));
      if found.Some? {
        RouteErrorStays(n, c, k + 1, |c.routes|);
        return found;
      }
    }
    return None;
  }

  // ---------- configuring ----------

  function ReplayGateway(l: Ledger, existing: Row, request: GatewayRequest): Applied {
    if existing.GatewayRow? && existing.gateway == request then Applied(l, Replayed(existing))
    else Reject(l, GatewayCommandConflict)
  }

  function ConfigureMultibus(l: Ledger, c: ConfigureCommand): Applied {
    match Find(l.rows, GatewayExecutions, c.commandId)
    case Some(row) => ReplayGateway(l, row, Configure(c))
    case None =>
      var n := l.net;
      if c.expectedVersion != n.version then Reject(l, VersionConflict(n.version)) else
        match ConfigurationError(n, c)
        case Some(e) => Reject(l, e)
        case None =>
          var row := GatewayRow(c.commandId, Configure(c), None, n.version, n.version + 1);
          Record(l, n.(linChannels := c.linChannels, ethernetSegments := c.ethernetSegments, routes := c.routes,
                       version := n.version + 1), [row], row)
  }

  method ExecuteConfiguration(session: Session, network: CanNetwork, c: ConfigureCommand) returns (outcome: Outcome)
    modifies session, network
    ensures Applied(Snapshot(network, session), outcome) == ConfigureMultibus(old(Snapshot(network, session)), c)
  {
    hide ConfigurationError;
    hide Find;
    var existing := Find(session.rows, GatewayExecutions, c.commandId);
    if existing.Some? {
      return if existing.value.GatewayRow? && existing.value.gateway == Configure(c)
        then Replayed(existing.value) else Rejected(GatewayCommandConflict);
    }
    if c.expectedVersion != network.version {
      return Rejected(VersionConflict(network.version));
    }
    var error := ValidateConfiguration(network.View(), c);
    if error.Some? {
      return Rejected(error.value);
    }
    var row := GatewayRow(c.commandId, Configure(c), None, network.version, network.version + 1);
    network.linChannels := c.linChannels;
    network.ethernetSegments := c.ethernetSegments;
    network.gatewayRoutes := c.routes;
    network.version := network.version + 1;
    session.Add(row);
    return Done(row);
  }

  // ---------- executing a route ----------

  function FindRoute(routes: seq<Route>, identifier: string): (r: Option<Route>)
    ensures r.Some? ==> r.value in routes && r.value.identifier == identifier
    ensures r.None? <==> forall i :: 0 <= i < |routes| ==> routes[i].identifier != identifier
  {
    if routes == [] then None
    else if routes[0].identifier == identifier then Some(routes[0])
    else
      var r := FindRoute(routes[1..], identifier);
      assert r.None? ==> forall i :: 0 < i < |routes| ==> routes[i] == routes[1..][i - 1];
      r
  }

  /** Payload length, transmission time and bus timing of a route's destination contract. */
  datatype Target = Target(payloadLength: nat, duration: nat, timing: BusTiming)

  function Destination(n: Net, route: Route): Result<Target, Error> {
    match route.destinationProtocol
    case Can =>
      (match FindContract(n.contracts, route.destinationContractId)
       case None => Err(UnknownContract)
       case Some(c) => Ok(Target(c.dlc, Duration(c, n.rates),
                                 BusTiming(FrameTiming(c, n.rates).BitCount(), n.rates.nominal))))
    case Lin =>
      (match FindTransport(LinTransports(n.linChannels), route.destinationContractId)
       case None => Err(UnknownDestination)
       case Some(t) =>
         var bits := 43 + 10 * t.payloadLength;
         Ok(Target(t.payloadLength, CeilDiv(bits * 1000, t.rate), BusTiming(bits, t.rate))))
    case Ethernet =>
      (match FindTransport(EthernetTransports(n.ethernetSegments), route.destinationContractId)
       case None => Err(UnknownDestination)
       case Some(t) =>
         var bits := (38 + t.payloadLength) * 8;
         Ok(Target(t.payloadLength, CeilDiv(bits, t.rate), BusTiming(bits, t.rate))))
  }

  /** LIN, Ethernet and classic CAN durations are the least time in which the bus carries the reported bits. */
  lemma TimingExplainsDuration(n: Net, route: Route, us: nat)
    requires Destination(n, route).Ok?
    requires route.destinationProtocol.Can? ==>
             FindContract(n.contracts, route.destinationContractId).value.protocol.Classic?
    ensures var t := Destination(n, route).value;
            t.duration <= us <==>
                t.timing.bitCount * (if route.destinationProtocol.Ethernet? then 1 else 1000) <= us * t.timing.rate
  {
    var t := Destination(n, route).value;
    if route.destinationProtocol.Ethernet? {
      CeilDivIsLeast(t.timing.bitCount, t.timing.rate, us);
    } else {
      CeilDivIsLeast(t.timing.bitCount * 1000, t.timing.rate, us);
      if route.destinationProtocol.Can? {
        CeilDivIsLeast(0, n.rates.nominal, 0);
      }
    }
    hide CeilDiv;
  }

  function RouteResultOf(n: Net, route: Route, target: Target, advance: nat): RouteResult {
    var started := n.time + advance;
    RouteResult(n.nextSequence, route, target.payloadLength, started, started + target.duration, target.duration,
                target.timing)
  }

  function ExecuteRoute(l: Ledger, c: RouteCommand): Applied {
    match Find(l.rows, GatewayExecutions, c.commandId)
    case Some(row) => ReplayGateway(l, row, RouteFrame(c))
    case None =>
      var n := l.net;
      if c.expectedVersion != n.version then Reject(l, VersionConflict(n.version)) else
        match FindRoute(n.routes, c.routeId)
        case None => Reject(l, UnknownRoute)
        case Some(route) =>
          match Destination(n, route)
          case Err(e) => Reject(l, e)
          case Ok(target) =>
            if |c.payload| != target.payloadLength then Reject(l, WrongPayloadLength) else
              var result := RouteResultOf(n, route, target, c.advance);
              var row := GatewayRow(c.commandId, RouteFrame(c), Some(result), n.version, n.version + 1);
              Record(l, n.(time := result.completedAt, nextSequence := n.nextSequence + 1, version := n.version + 1),
                     [row], row)
  }

  method ExecuteGatewayRoute(session: Session, network: CanNetwork, c: RouteCommand) returns (outcome: Outcome)
    modifies session, network
    ensures Applied(Snapshot(network, session), outcome) == ExecuteRoute(old(Snapshot(network, session)), c)
  {
    var existing := Find(session.rows, GatewayExecutions, c.commandId);
    if existing.Some? {
      return if existing.value.GatewayRow? && existing.value.gateway == RouteFrame(c)
        then Replayed(existing.value) else Rejected(GatewayCommandConflict);
    }
    if c.expectedVersion != network.version {
      return Rejected(VersionConflict(network.version));
    }
    var route := FindRoute(network.gatewayRoutes, c.routeId);
    if route.None? {
      return Rejected(UnknownRoute);
    }
    var target := Destination(network.View(), route.value);
    if target.Err? {
      return Rejected(target.error);
    }
    if |c.payload| != target.value.payloadLength {
      return Rejected(WrongPayloadLength);
    }
    var sequence := network.nextSequence;
    var startedAt := network.simulationTime + c.advance;
    var completedAt := startedAt + target.value.duration;
    var result := RouteResult(sequence, route.value, target.value.payloadLength, startedAt, completedAt,
                              target.value.duration, target.value.timing);
    var row := GatewayRow(c.commandId, RouteFrame(c), Some(result), network.version, network.version + 1);
    network.simulationTime := completedAt;
    network.nextSequence := network.nextSequence + 1;
    network.version := network.version + 1;
    session.Add(row);
    return Done(row);
  }

  // ---------- configured routes never get stuck ----------

  /** The payload length the validator would compute for a contract under the stored configuration. */
  function StoredLength(n: Net, protocol: BusProtocol, identifier: string): Result<nat, Error> {
    PayloadLength(n.contracts, protocol, identifier,
                  Dictionary(LinTransports(n.linChannels)), Dictionary(EthernetTransports(n.ethernetSegments)))
  }

  /**
   * A stored route leads from a gateway node through an existing source to a destination of the same, non-zero
   * length.
   */
  ghost predicate RouteResolves(n: Net, route: Route) {
    var roles := Roles(n.nodes);
    && route.gateway in roles && roles[route.gateway] == Gateway
    && Destination(n, route).Ok?
    && Destination(n, route).value.payloadLength > 0
    && StoredLength(n, route.sourceProtocol, route.sourceContractId) == Ok(Destination(n, route).value.payloadLength)
    && StoredLength(n, route.destinationProtocol, route.destinationContractId) ==
         Ok(Destination(n, route).value.payloadLength)
  }

  ghost predicate RoutesResolve(n: Net) {
    && DistinctRoutes(n.routes)
    && forall i :: 0 <= i < |n.routes| ==> RouteResolves(n, n.routes[i])
  }

  /** The executor's first-wins search finds the very contract whose length the validator compared. */
  lemma DestinationMatchesValidator(n: Net, route: Route)
    requires DistinctTransports(LinTransports(n.linChannels))
             && DistinctTransports(EthernetTransports(n.ethernetSegments))
    ensures Destination(n, route).Ok? <==> StoredLength(n, route.destinationProtocol, route.destinationContractId).Ok?
    ensures Destination(n, route).Ok? ==>
            StoredLength(n, route.destinationProtocol, route.destinationContractId) ==
                Ok(Destination(n, route).value.payloadLength)
  {
    LookupsAgree(LinTransports(n.linChannels), route.destinationContractId);
    LookupsAgree(EthernetTransports(n.ethernetSegments), route.destinationContractId);
  }

  /** Every route of an accepted configuration resolves in the network that stores it. */
  lemma AcceptedConfigurationResolves(n: Net, c: ConfigureCommand)
    requires c.Valid()
    requires ConfigurationError(n, c).None?
    ensures RoutesResolve(n.(linChannels := c.linChannels, ethernetSegments := c.ethernetSegments, routes := c.routes))
  {
    var m := n.(linChannels := c.linChannels, ethernetSegments := c.ethernetSegments, routes := c.routes);
    forall i | 0 <= i < |m.routes| ensures RouteResolves(m, m.routes[i]) {
      NoRouteError(n, c, |c.routes|, i);
      DestinationMatchesValidator(m, m.routes[i]);
    }
  }

  /**
   * Where routes resolve, a route command is accepted exactly when it names a route, expects the version
   * and carries the source's length.
   */
  lemma ResolvedRoutesAccept(l: Ledger, c: RouteCommand)
    requires RoutesResolve(l.net)
    requires Find(l.rows, GatewayExecutions, c.commandId).None?
    ensures ExecuteRoute(l, c).outcome.Done? <==>
            && c.expectedVersion == l.net.version
            && exists i :: 0 <= i < |l.net.routes|
                 && l.net.routes[i].identifier == c.routeId
                 && StoredLength(l.net, l.net.routes[i].sourceProtocol, l.net.routes[i].sourceContractId) ==
                      Ok(|c.payload|)
  {
    var n := l.net;
    var found := FindRoute(n.routes, c.routeId);
    if found.Some? {
      var i :| 0 <= i < |n.routes| && n.routes[i] == found.value;
      assert RouteResolves(n, n.routes[i]);
      forall j | 0 <= j < |n.routes| && n.routes[j].identifier == c.routeId ensures j == i {}
    }
  }

  // ---------- accepting a configuration ----------

  ghost predicate Declared(n: Net, id: NodeId) {
    exists i :: 0 <= i < |n.nodes| && n.nodes[i].ecuId == id
  }

  lemma {:induction false} RolesDeclared(nodes: seq<Node>, id: NodeId)
    ensures id in Roles(nodes) <==> exists i :: 0 <= i < |nodes| && nodes[i].ecuId == id
  {
    if nodes != [] {
      var rest := nodes[..|nodes| - 1];
      RolesDeclared(rest, id);
      assert forall i :: 0 <= i < |rest| ==> nodes[i] == rest[i];
    }
  }

  /** The channel's master, and every publisher and subscriber of its frames, are nodes of the network. */
  ghost predicate LinDeclared(n: Net, channel: LinChannel) {
    && Declared(n, channel.master)
    && forall k :: 0 <= k < |channel.frames| ==>
         Declared(n, channel.frames[k].publisher)
         && forall id :: id in channel.frames[k].subscribers ==> Declared(n, id)
  }

  /** Every source and destination of the segment's messages is a node of the network. */
  ghost predicate EthernetDeclared(n: Net, segment: EthernetSegment) {
    forall k :: 0 <= k < |segment.messages| ==>
      Declared(n, segment.messages[k].source) && forall id :: id in segment.messages[k].destinations ==> Declared(n, id)
  }

  lemma {:induction false} LinReferencesIn(master: NodeId, frames: seq<LinFrame>, known: set<NodeId>, k: nat)
    requires k <= |frames|
    ensures LinReferences(master, frames, k) <= known <==>
            && master in known
            && forall i :: 0 <= i < k ==> frames[i].publisher in known && AsSet(frames[i].subscribers) <= known
  {
    hide AsSet;
    if k > 0 {
      LinReferencesIn(master, frames, known, k - 1);
    }
  }

  lemma {:induction false} EthernetReferencesIn(messages: seq<EthernetMessage>, known: set<NodeId>, k: nat)
    requires k <= |messages|
    ensures EthernetReferences(messages, k) <= known <==>
            forall i :: 0 <= i < k ==> messages[i].source in known && AsSet(messages[i].destinations) <= known
  {
    hide AsSet;
    if k > 0 {
      EthernetReferencesIn(messages, known, k - 1);
    }
  }

  lemma KnownIds(n: Net, ids: seq<NodeId>)
    ensures AsSet(ids) <= Roles(n.nodes).Keys <==> forall id :: id in ids ==> Declared(n, id)
  {
    forall id ensures id in Roles(n.nodes) <==> Declared(n, id) {
      RolesDeclared(n.nodes, id);
    }
    hide Declared;
    hide Roles;
    if forall id :: id in ids ==> Declared(n, id) {
      forall id | id in AsSet(ids) ensures id in Roles(n.nodes).Keys {
        assert id in ids;
      }
    } else {
      var id :| id in ids && !Declared(n, id);
      assert id in AsSet(ids) && id !in Roles(n.nodes).Keys;
    }
  }

  lemma LinKnownExactly(n: Net, channel: LinChannel)
    ensures LinKnown(channel, Roles(n.nodes).Keys) <==> LinDeclared(n, channel)
  {
    hide Declared;
    hide AsSet;
    hide Roles;
    LinReferencesIn(channel.master, channel.frames, Roles(n.nodes).Keys, |channel.frames|);
    KnownId(n, channel.master);
    forall k | 0 <= k < |channel.frames|
      ensures channel.frames[k].publisher in Roles(n.nodes).Keys <==> Declared(n, channel.frames[k].publisher)
      ensures AsSet(channel.frames[k].subscribers) <= Roles(n.nodes).Keys <==>
              forall id :: id in channel.frames[k].subscribers ==> Declared(n, id)
    {
      KnownId(n, channel.frames[k].publisher);
      KnownIds(n, channel.frames[k].subscribers);
    }
  }

  lemma KnownId(n: Net, id: NodeId)
    ensures id in Roles(n.nodes).Keys <==> Declared(n, id)
  {
    RolesDeclared(n.nodes, id);
  }

  lemma EthernetKnownExactly(n: Net, segment: EthernetSegment)
    ensures EthernetKnown(segment, Roles(n.nodes).Keys) <==> EthernetDeclared(n, segment)
  {
    hide Declared;
    hide AsSet;
    hide Roles;
    EthernetReferencesIn(segment.messages, Roles(n.nodes).Keys, |segment.messages|);
    forall k | 0 <= k < |segment.messages|
      ensures segment.messages[k].source in Roles(n.nodes).Keys <==> Declared(n, segment.messages[k].source)
      ensures AsSet(segment.messages[k].destinations) <= Roles(n.nodes).Keys <==>
              forall id :: id in segment.messages[k].destinations ==> Declared(n, id)
    {
      KnownId(n, segment.messages[k].source);
      KnownIds(n, segment.messages[k].destinations);
    }
  }

  /** Transport identifiers are distinct, and LIN and Ethernet contracts refer only to nodes of the network. */
  ghost predicate TransportsSound(n: Net) {
    && DistinctTransports(LinTransports(n.linChannels)) && DistinctTransports(EthernetTransports(n.ethernetSegments))
    && (forall i :: 0 <= i < |n.linChannels| ==> LinDeclared(n, n.linChannels[i]))
    && (forall i :: 0 <= i < |n.ethernetSegments| ==> EthernetDeclared(n, n.ethernetSegments[i]))
  }

  function Configured(n: Net, c: ConfigureCommand): Net {
    n.(linChannels := c.linChannels, ethernetSegments := c.ethernetSegments, routes := c.routes)
  }

  /** The route's gateway has the gateway role, and its source and destination contracts exist with one length. */
  ghost predicate RouteAllowed(n: Net, route: Route) {
    var roles := Roles(n.nodes);
    var source := StoredLength(n, route.sourceProtocol, route.sourceContractId);
    && route.gateway in roles && roles[route.gateway] == Gateway
    && source.Ok? && StoredLength(n, route.destinationProtocol, route.destinationContractId) == source
  }

  lemma {:induction false} AllRoutesAllowed(n: Net, c: ConfigureCommand, k: nat)
    requires k <= |c.routes|
    ensures FirstRouteError(n, c, k).None? <==> forall i :: 0 <= i < k ==> RouteAllowed(Configured(n, c), c.routes[i])
  {
    hide Dictionary;
    hide LinTransports;
    hide EthernetTransports;
    hide Roles;
    if k > 0 {
      AllRoutesAllowed(n, c, k - 1);
    }
  }

  /**
   * A configuration is accepted exactly when its id is free, its version current, its transports are distinct and
   * refer only to nodes of the network, its routes are distinct, and every route leads from a gateway node between
   * existing contracts of equal length.
   */
  lemma ConfigureAcceptsExactly(l: Ledger, c: ConfigureCommand)
    ensures ConfigureMultibus(l, c).outcome.Done? <==>
            && Find(l.rows, GatewayExecutions, c.commandId).None?
            && c.expectedVersion == l.net.version
            && TransportsSound(Configured(l.net, c))
            && DistinctRoutes(c.routes)
            && forall i :: 0 <= i < |c.routes| ==> RouteAllowed(Configured(l.net, c), c.routes[i])
  {
    hide Find;
    hide LinKnown;
    hide EthernetKnown;
    hide LinDeclared;
    hide EthernetDeclared;
    hide DistinctTransports;
    hide DistinctRoutes;
    hide LinTransports;
    hide EthernetTransports;
    hide RouteAllowed;
    hide FirstRouteError;
    hide Roles;
    var n, m := l.net, Configured(l.net, c);
    AllRoutesAllowed(n, c, |c.routes|);
    forall i | 0 <= i < |c.linChannels|
      ensures LinKnown(c.linChannels[i], Roles(n.nodes).Keys) <==> LinDeclared(m, c.linChannels[i])
    {
      LinKnownExactly(m, c.linChannels[i]);
    }
    forall i | 0 <= i < |c.ethernetSegments|
      ensures EthernetKnown(c.ethernetSegments[i], Roles(n.nodes).Keys) <==> EthernetDeclared(m, c.ethernetSegments[i])
    {
      EthernetKnownExactly(m, c.ethernetSegments[i]);
    }
  }
}

/** What a multi-bus configuration is accepted by, told by its channels, segments and routes. */
module ConfigurationEvidence {
  import opened Basics
  import opened Schemas
  import opened Store
  import opened MultiBus
  import opened RouteEvidence

  // ---------- declared lengths and roles ----------

  /** The contract of that name, as it is first declared, has that payload length. */
  ghost predicate DeclaresLength(n: Net, protocol: BusProtocol, id: string, length: nat) {
    match protocol
    case Can => exists c :: FindContract(n.contracts, id) == Some(c) && c.dlc == length
    case Lin => exists i, j :: FirstLin(n, i, j, id) && n.linChannels[i].frames[j].payloadLength == length
    case Ethernet =>
      exists i, j :: FirstEthernet(n, i, j, id) && n.ethernetSegments[i].messages[j].payloadLength == length
  }

  lemma StoredLengthExactly(n: Net, protocol: BusProtocol, id: string, length: nat)
    requires DistinctTransports(LinTransports(n.linChannels))
    requires DistinctTransports(EthernetTransports(n.ethernetSegments))
    ensures StoredLength(n, protocol, id) == Ok(length) <==> DeclaresLength(n, protocol, id, length)
  {
    hide DistinctTransports;
    hide LinTransports;
    hide EthernetTransports;
    hide Dictionary;
    hide FirstLin;
    hide FirstEthernet;
    LookupsAgree(LinTransports(n.linChannels), id);
    LookupsAgree(EthernetTransports(n.ethernetSegments), id);
    LinFound(n, id);
    EthernetFound(n, id);
    OneFirstLin(n, id);
    OneFirstEthernet(n, id);
  }

  lemma OneFirstLin(n: Net, id: string)
    ensures forall i, j, k, m :: FirstLin(n, i, j, id) && FirstLin(n, k, m, id) ==> i == k && j == m
    ensures forall i, j :: FirstLin(n, i, j, id) ==> LinContract(n, i, j, id)
  {
    forall i, j, k, m | FirstLin(n, i, j, id) && FirstLin(n, k, m, id) ensures i == k && j == m {
      assert Earlier(i, j, k, m) && Earlier(k, m, i, j);
    }
  }

  lemma OneFirstEthernet(n: Net, id: string)
    ensures forall i, j, k, m :: FirstEthernet(n, i, j, id) && FirstEthernet(n, k, m, id) ==> i == k && j == m
    ensures forall i, j :: FirstEthernet(n, i, j, id) ==> EthernetContract(n, i, j, id)
  {
    forall i, j, k, m | FirstEthernet(n, i, j, id) && FirstEthernet(n, k, m, id) ensures i == k && j == m {
      assert Earlier(i, j, k, m) && Earlier(k, m, i, j);
    }
  }

  /** The role of a node is that of its last entry. */
  ghost predicate LastRole(nodes: seq<Node>, id: NodeId, role: NodeRole) {
    exists i :: 0 <= i < |nodes| && nodes[i] == Node(id, role)
      && forall j :: i < j < |nodes| ==> nodes[j].ecuId != id
  }

  lemma {:induction false} RolesExactly(nodes: seq<Node>, id: NodeId, role: NodeRole)
    ensures id in Roles(nodes) && Roles(nodes)[id] == role <==> LastRole(nodes, id, role)
  {
    if nodes != [] {
      var last := |nodes| - 1;
      RolesExactly(nodes[..last], id, role);
      assert forall i :: 0 <= i < last ==> nodes[i] == nodes[..last][i];
      if nodes[last].ecuId != id && LastRole(nodes[..last], id, role) {
        var i :| 0 <= i < last && nodes[..last][i] == Node(id, role)
                 && forall j :: i < j < last ==> nodes[..last][j].ecuId != id;
        assert nodes[i] == Node(id, role);
      }
    }
  }

  // ---------- distinct contracts ----------

  predicate HasId(ts: seq<Transport>, id: string) {
    exists k :: 0 <= k < |ts| && ts[k].identifier == id
  }

  lemma DistinctConcat(a: seq<Transport>, b: seq<Transport>)
    ensures DistinctTransports(a + b) <==>
            DistinctTransports(a) && DistinctTransports(b) && forall id :: !(HasId(a, id) && HasId(b, id))
  {
    if DistinctTransports(a + b) {
      assert forall i :: 0 <= i < |a| ==> (a + b)[i] == a[i];
      assert forall i :: 0 <= i < |b| ==> (a + b)[i + |a|] == b[i];
    }
    if DistinctTransports(a) && DistinctTransports(b) && forall id :: !(HasId(a, id) && HasId(b, id)) {
      forall i, j | 0 <= i < j < |a + b| ensures (a + b)[i].identifier != (a + b)[j].identifier {
        if i < |a| <= j {
          assert HasId(a, a[i].identifier) && HasId(b, b[j - |a|].identifier);
        }
      }
    }
  }

  lemma HasIdConcat(a: seq<Transport>, b: seq<Transport>, id: string)
    ensures HasId(a + b, id) <==> HasId(a, id) || HasId(b, id)
  {
    if k :| 0 <= k < |a| && a[k].identifier == id {
      assert (a + b)[k].identifier == id;
    }
    if k :| 0 <= k < |b| && b[k].identifier == id {
      assert (a + b)[k + |a|].identifier == id;
    }
  }

  lemma {:induction false} ChannelListed(frames: seq<LinFrame>, rate: Positive)
    ensures |ChannelTransports(frames, rate)| == |frames|
    ensures forall j :: 0 <= j < |frames| ==> ChannelTransports(frames, rate)[j].identifier == frames[j].identifier
  {
    if frames != [] {
      ChannelListed(frames[1..], rate);
    }
  }

  lemma {:induction false} SegmentListed(messages: seq<EthernetMessage>, rate: Positive)
    ensures |SegmentTransports(messages, rate)| == |messages|
    ensures forall j :: 0 <= j < |messages| ==>
              SegmentTransports(messages, rate)[j].identifier == messages[j].identifier
  {
    if messages != [] {
      SegmentListed(messages[1..], rate);
    }
  }

  ghost predicate LinNamed(n: Net, id: string) {
    exists i, j :: LinContract(n, i, j, id)
  }

  ghost predicate LinNamedFirst(n: Net, id: string) {
    exists j :: LinContract(n, 0, j, id)
  }

  ghost predicate EthernetNamed(n: Net, id: string) {
    exists i, j :: EthernetContract(n, i, j, id)
  }

  ghost predicate EthernetNamedFirst(n: Net, id: string) {
    exists j :: EthernetContract(n, 0, j, id)
  }

  /** No two LIN contracts of the network have one name. */
  ghost predicate DistinctLin(n: Net) {
    forall i, j, k, m, id :: LinContract(n, i, j, id) && LinContract(n, k, m, id) ==> i == k && j == m
  }

  ghost predicate DistinctEthernet(n: Net) {
    forall i, j, k, m, id :: EthernetContract(n, i, j, id) && EthernetContract(n, k, m, id) ==> i == k && j == m
  }

  lemma {:induction false} LinListed(n: Net, id: string)
    ensures HasId(LinTransports(n.linChannels), id) <==> LinNamed(n, id)
    decreases |n.linChannels|
  {
    hide HasId;
    NothingListed(id);
    if n.linChannels != [] {
      var first, rest := n.linChannels[0], n.(linChannels := n.linChannels[1..]);
      LinListed(rest, id);
      HasIdConcat(ChannelTransports(first.frames, first.bitrateKbps), LinTransports(rest.linChannels), id);
      LinInFirst(n, id);
      LinShift(n, id);
    }
  }

  lemma NothingListed(id: string)
    ensures !HasId([], id)
  {}

  lemma LinInFirst(n: Net, id: string)
    requires n.linChannels != []
    ensures HasId(ChannelTransports(n.linChannels[0].frames, n.linChannels[0].bitrateKbps), id) <==>
            LinNamedFirst(n, id)
  {
    ChannelListed(n.linChannels[0].frames, n.linChannels[0].bitrateKbps);
    var ts := ChannelTransports(n.linChannels[0].frames, n.linChannels[0].bitrateKbps);
    if j :| LinContract(n, 0, j, id) {
      assert ts[j].identifier == id;
    }
    if HasId(ts, id) {
      var k :| 0 <= k < |ts| && ts[k].identifier == id;
      assert LinContract(n, 0, k, id);
    }
  }

  lemma LinShift(n: Net, id: string)
    requires n.linChannels != []
    ensures forall i, j :: LinContract(n, i + 1, j, id) && i >= 0 <==>
                           LinContract(n.(linChannels := n.linChannels[1..]), i, j, id)
    ensures LinNamed(n, id) <==> LinNamedFirst(n, id) || LinNamed(n.(linChannels := n.linChannels[1..]), id)
  {
    var rest := n.(linChannels := n.linChannels[1..]);
    if i, j :| LinContract(n, i, j, id) {
      assert i > 0 ==> LinContract(rest, i - 1, j, id);
    }
    if i, j :| LinContract(rest, i, j, id) {
      assert LinContract(n, i + 1, j, id);
    }
  }

  lemma {:induction false} EthernetListed(n: Net, id: string)
    ensures HasId(EthernetTransports(n.ethernetSegments), id) <==> EthernetNamed(n, id)
    decreases |n.ethernetSegments|
  {
    hide HasId;
    NothingListed(id);
    if n.ethernetSegments != [] {
      var first, rest := n.ethernetSegments[0], n.(ethernetSegments := n.ethernetSegments[1..]);
      EthernetListed(rest, id);
      HasIdConcat(SegmentTransports(first.messages, first.speedMbps), EthernetTransports(rest.ethernetSegments), id);
      EthernetInFirst(n, id);
      EthernetShift(n, id);
    }
  }

  lemma EthernetInFirst(n: Net, id: string)
    requires n.ethernetSegments != []
    ensures HasId(SegmentTransports(n.ethernetSegments[0].messages, n.ethernetSegments[0].speedMbps), id) <==>
            EthernetNamedFirst(n, id)
  {
    SegmentListed(n.ethernetSegments[0].messages, n.ethernetSegments[0].speedMbps);
    var ts := SegmentTransports(n.ethernetSegments[0].messages, n.ethernetSegments[0].speedMbps);
    if j :| EthernetContract(n, 0, j, id) {
      assert ts[j].identifier == id;
    }
    if HasId(ts, id) {
      var k :| 0 <= k < |ts| && ts[k].identifier == id;
      assert EthernetContract(n, 0, k, id);
    }
  }

  lemma EthernetShift(n: Net, id: string)
    requires n.ethernetSegments != []
    ensures forall i, j :: EthernetContract(n, i + 1, j, id) && i >= 0 <==>
                           EthernetContract(n.(ethernetSegments := n.ethernetSegments[1..]), i, j, id)
    ensures EthernetNamed(n, id) <==>
            EthernetNamedFirst(n, id) || EthernetNamed(n.(ethernetSegments := n.ethernetSegments[1..]), id)
  {
    var rest := n.(ethernetSegments := n.ethernetSegments[1..]);
    if i, j :| EthernetContract(n, i, j, id) {
      assert i > 0 ==> EthernetContract(rest, i - 1, j, id);
    }
    if i, j :| EthernetContract(rest, i, j, id) {
      assert EthernetContract(n, i + 1, j, id);
    }
  }

  lemma LinTwice(frames: seq<LinFrame>, rate: Positive)
    ensures DistinctTransports(ChannelTransports(frames, rate)) <==>
            forall j, m :: 0 <= j < m < |frames| ==> frames[j].identifier != frames[m].identifier
  {
    ChannelListed(frames, rate);
    if forall j, m :: 0 <= j < m < |frames| ==> frames[j].identifier != frames[m].identifier {
      assert DistinctTransports(ChannelTransports(frames, rate));
    }
    if DistinctTransports(ChannelTransports(frames, rate)) {
      var ts := ChannelTransports(frames, rate);
      forall j, m | 0 <= j < m < |frames| ensures frames[j].identifier != frames[m].identifier {
        assert ts[j].identifier != ts[m].identifier;
      }
    }
  }

  lemma LinNamedTwice(n: Net, id: string)
    requires n.linChannels != []
    ensures LinNamedFirst(n, id) && LinNamed(n.(linChannels := n.linChannels[1..]), id) ==> !DistinctLin(n)
  {
    if LinNamedFirst(n, id) && LinNamed(n.(linChannels := n.linChannels[1..]), id) {
      var j :| LinContract(n, 0, j, id);
      var i, m :| LinContract(n.(linChannels := n.linChannels[1..]), i, m, id);
      assert LinContract(n, i + 1, m, id);
    }
  }

  lemma DistinctLinSplit(n: Net)
    requires n.linChannels != []
    ensures var first, rest := n.linChannels[0].frames, n.(linChannels := n.linChannels[1..]);
            DistinctLin(n) <==>
            && (forall j, m :: 0 <= j < m < |first| ==> first[j].identifier != first[m].identifier)
            && DistinctLin(rest)
            && forall id :: !(LinNamedFirst(n, id) && LinNamed(rest, id))
  {
    var first, rest := n.linChannels[0].frames, n.(linChannels := n.linChannels[1..]);
    forall i, j, id ensures LinContract(n, i + 1, j, id) && i >= 0 <==> LinContract(rest, i, j, id) {
      LinShift(n, id);
    }
    if DistinctLin(n) {
      forall j, m | 0 <= j < m < |first| ensures first[j].identifier != first[m].identifier {
        if first[j].identifier == first[m].identifier {
          assert LinContract(n, 0, j, first[j].identifier) && LinContract(n, 0, m, first[j].identifier);
        }
      }
      forall i, j, k, m, id | LinContract(rest, i, j, id) && LinContract(rest, k, m, id) ensures i == k && j == m {
        assert LinContract(n, i + 1, j, id) && LinContract(n, k + 1, m, id);
      }
      forall id ensures !(LinNamedFirst(n, id) && LinNamed(rest, id)) {
        LinNamedTwice(n, id);
      }
    } else {
      var i, j, k, m, id :| LinContract(n, i, j, id) && LinContract(n, k, m, id) && !(i == k && j == m);
      assert i > 0 ==> LinContract(rest, i - 1, j, id);
      assert k > 0 ==> LinContract(rest, k - 1, m, id);
      assert (i == 0) != (k == 0) ==> LinNamedFirst(n, id) && LinNamed(rest, id);
    }
  }

  lemma {:induction false} DistinctLinExactly(n: Net)
    ensures DistinctTransports(LinTransports(n.linChannels)) <==> DistinctLin(n)
    decreases |n.linChannels|
  {
    if n.linChannels != [] {
      hide DistinctTransports;
      hide DistinctLin;
      hide HasId;
      var first, rest := n.linChannels[0], n.(linChannels := n.linChannels[1..]);
      DistinctLinExactly(rest);
      DistinctLinSplit(n);
      LinTwice(first.frames, first.bitrateKbps);
      DistinctConcat(ChannelTransports(first.frames, first.bitrateKbps), LinTransports(rest.linChannels));
      forall id
        ensures HasId(ChannelTransports(first.frames, first.bitrateKbps), id) <==> LinNamedFirst(n, id)
        ensures HasId(LinTransports(rest.linChannels), id) <==> LinNamed(rest, id)
      {
        LinInFirst(n, id);
        LinListed(rest, id);
      }
      hide LinNamed;
      hide LinNamedFirst;
    }
  }

  lemma EthernetTwice(messages: seq<EthernetMessage>, rate: Positive)
    ensures DistinctTransports(SegmentTransports(messages, rate)) <==>
            forall j, m :: 0 <= j < m < |messages| ==> messages[j].identifier != messages[m].identifier
  {
    SegmentListed(messages, rate);
    if forall j, m :: 0 <= j < m < |messages| ==> messages[j].identifier != messages[m].identifier {
      assert DistinctTransports(SegmentTransports(messages, rate));
    }
    if DistinctTransports(SegmentTransports(messages, rate)) {
      var ts := SegmentTransports(messages, rate);
      forall j, m | 0 <= j < m < |messages| ensures messages[j].identifier != messages[m].identifier {
        assert ts[j].identifier != ts[m].identifier;
      }
    }
  }

  lemma EthernetNamedTwice(n: Net, id: string)
    requires n.ethernetSegments != []
    ensures EthernetNamedFirst(n, id) && EthernetNamed(n.(ethernetSegments := n.ethernetSegments[1..]), id) ==>
              !DistinctEthernet(n)
  {
    if EthernetNamedFirst(n, id) && EthernetNamed(n.(ethernetSegments := n.ethernetSegments[1..]), id) {
      var j :| EthernetContract(n, 0, j, id);
      var i, m :| EthernetContract(n.(ethernetSegments := n.ethernetSegments[1..]), i, m, id);
      assert EthernetContract(n, i + 1, m, id);
    }
  }

  lemma DistinctEthernetSplit(n: Net)
    requires n.ethernetSegments != []
    ensures var first, rest := n.ethernetSegments[0].messages, n.(ethernetSegments := n.ethernetSegments[1..]);
            DistinctEthernet(n) <==>
            && (forall j, m :: 0 <= j < m < |first| ==> first[j].identifier != first[m].identifier)
            && DistinctEthernet(rest)
            && forall id :: !(EthernetNamedFirst(n, id) && EthernetNamed(rest, id))
  {
    var first, rest := n.ethernetSegments[0].messages, n.(ethernetSegments := n.ethernetSegments[1..]);
    forall i, j, id ensures EthernetContract(n, i + 1, j, id) && i >= 0 <==> EthernetContract(rest, i, j, id) {
      EthernetShift(n, id);
    }
    if DistinctEthernet(n) {
      forall j, m | 0 <= j < m < |first| ensures first[j].identifier != first[m].identifier {
        if first[j].identifier == first[m].identifier {
          assert EthernetContract(n, 0, j, first[j].identifier) && EthernetContract(n, 0, m, first[j].identifier);
        }
      }
      forall i, j, k, m, id | EthernetContract(rest, i, j, id) && EthernetContract(rest, k, m, id)
        ensures i == k && j == m
      {
        assert EthernetContract(n, i + 1, j, id) && EthernetContract(n, k + 1, m, id);
      }
      forall id ensures !(EthernetNamedFirst(n, id) && EthernetNamed(rest, id)) {
        EthernetNamedTwice(n, id);
      }
    } else {
      var i, j, k, m, id :| EthernetContract(n, i, j, id) && EthernetContract(n, k, m, id) && !(i == k && j == m);
      assert i > 0 ==> EthernetContract(rest, i - 1, j, id);
      assert k > 0 ==> EthernetContract(rest, k - 1, m, id);
      assert (i == 0) != (k == 0) ==> EthernetNamedFirst(n, id) && EthernetNamed(rest, id);
    }
  }

  lemma {:induction false} DistinctEthernetExactly(n: Net)
    ensures DistinctTransports(EthernetTransports(n.ethernetSegments)) <==> DistinctEthernet(n)
    decreases |n.ethernetSegments|
  {
    if n.ethernetSegments != [] {
      hide DistinctTransports;
      hide DistinctEthernet;
      hide HasId;
      var first, rest := n.ethernetSegments[0], n.(ethernetSegments := n.ethernetSegments[1..]);
      DistinctEthernetExactly(rest);
      DistinctEthernetSplit(n);
      EthernetTwice(first.messages, first.speedMbps);
      DistinctConcat(SegmentTransports(first.messages, first.speedMbps), EthernetTransports(rest.ethernetSegments));
      forall id
        ensures HasId(SegmentTransports(first.messages, first.speedMbps), id) <==> EthernetNamedFirst(n, id)
        ensures HasId(EthernetTransports(rest.ethernetSegments), id) <==> EthernetNamed(rest, id)
      {
        EthernetInFirst(n, id);
        EthernetListed(rest, id);
      }
      hide EthernetNamed;
      hide EthernetNamedFirst;
    }
  }

  // ---------- the configuration ----------

  /** The route leads from a node with the gateway role, between declared contracts of one length. */
  ghost predicate Joins(n: Net, route: Route) {
    && LastRole(n.nodes, route.gateway, Gateway)
    && exists length :: DeclaresLength(n, route.sourceProtocol, route.sourceContractId, length)
                        && DeclaresLength(n, route.destinationProtocol, route.destinationContractId, length)
  }

  lemma JoinsExactly(n: Net, route: Route)
    requires DistinctTransports(LinTransports(n.linChannels))
    requires DistinctTransports(EthernetTransports(n.ethernetSegments))
    ensures RouteAllowed(n, route) <==> Joins(n, route)
  {
    hide DistinctTransports;
    hide DeclaresLength;
    hide StoredLength;
    hide LastRole;
    RolesExactly(n.nodes, route.gateway, Gateway);
    hide Roles;
    forall length: nat
      ensures StoredLength(n, route.sourceProtocol, route.sourceContractId) == Ok(length) <==>
              DeclaresLength(n, route.sourceProtocol, route.sourceContractId, length)
      ensures StoredLength(n, route.destinationProtocol, route.destinationContractId) == Ok(length) <==>
              DeclaresLength(n, route.destinationProtocol, route.destinationContractId, length)
    {
      StoredLengthExactly(n, route.sourceProtocol, route.sourceContractId, length);
      StoredLengthExactly(n, route.destinationProtocol, route.destinationContractId, length);
    }
  }

  /**
   * A configuration is accepted exactly when its id is free, its version current, no two LIN and no two Ethernet
   * contracts share a name, all of them refer to nodes of the network, no two routes share a name, and each route
   * leads from a gateway between declared contracts of one length.
   */
  lemma ConfigurationExactly(l: Ledger, c: ConfigureCommand)
    ensures var m := l.net.(linChannels := c.linChannels, ethernetSegments := c.ethernetSegments, routes := c.routes);
            ConfigureMultibus(l, c).outcome.Done? <==>
            && Find(l.rows, GatewayExecutions, c.commandId).None?
            && c.expectedVersion == l.net.version
            && DistinctLin(m) && DistinctEthernet(m)
            && (forall i :: 0 <= i < |c.linChannels| ==> LinDeclared(m, c.linChannels[i]))
            && (forall i :: 0 <= i < |c.ethernetSegments| ==> EthernetDeclared(m, c.ethernetSegments[i]))
            && (forall i, j :: 0 <= i < j < |c.routes| ==> c.routes[i].identifier != c.routes[j].identifier)
            && (forall i :: 0 <= i < |c.routes| ==> Joins(m, c.routes[i]))
  {
    hide DistinctTransports;
    hide DistinctLin;
    hide DistinctEthernet;
    hide LinTransports;
    hide EthernetTransports;
    hide LinDeclared;
    hide EthernetDeclared;
    hide RouteAllowed;
    hide Joins;
    hide ConfigureMultibus;
    hide Find;
    var m := Configured(l.net, c);
    ConfigureAcceptsExactly(l, c);
    DistinctLinExactly(m);
    DistinctEthernetExactly(m);
    if DistinctLin(m) && DistinctEthernet(m) {
      forall i | 0 <= i < |c.routes| ensures RouteAllowed(m, c.routes[i]) <==> Joins(m, c.routes[i]) {
        JoinsExactly(m, c.routes[i]);
      }
    }
  }

  /** Why a route is not allowed: its gateway first, then its source, its destination, and their lengths. */
  ghost predicate RefusesJoin(n: Net, route: Route, e: Error) {
    if !LastRole(n.nodes, route.gateway, Gateway) then e == NotAGateway
    else if Undeclared(n, route.sourceProtocol, route.sourceContractId) then e == MissingContract(route.sourceProtocol)
    else if Undeclared(n, route.destinationProtocol, route.destinationContractId)
    then e == MissingContract(route.destinationProtocol)
    else e == UnequalPayloadLengths && !Joins(n, route)
  }

  ghost predicate Undeclared(n: Net, protocol: BusProtocol, id: string) {
    forall length :: !DeclaresLength(n, protocol, id, length)
  }

  function MissingContract(protocol: BusProtocol): Error {
    if protocol == Can then UnknownContract else UnknownTransportContract
  }

  lemma LengthRefused(n: Net, protocol: BusProtocol, id: string)
    requires DistinctTransports(LinTransports(n.linChannels))
    requires DistinctTransports(EthernetTransports(n.ethernetSegments))
    ensures StoredLength(n, protocol, id).Err? <==> Undeclared(n, protocol, id)
    ensures StoredLength(n, protocol, id).Err? ==> StoredLength(n, protocol, id).error == MissingContract(protocol)
  {
    hide DistinctTransports;
    hide LinTransports;
    hide EthernetTransports;
    hide Dictionary;
    forall length: nat
      ensures StoredLength(n, protocol, id) == Ok(length) <==> DeclaresLength(n, protocol, id, length)
    {
      StoredLengthExactly(n, protocol, id, length);
    }
    hide DeclaresLength;
    if StoredLength(n, protocol, id).Ok? {
      assert DeclaresLength(n, protocol, id, StoredLength(n, protocol, id).value);
    }
  }

  lemma JoinRefused(n: Net, c: ConfigureCommand, route: Route)
    requires DistinctTransports(LinTransports(c.linChannels))
    requires DistinctTransports(EthernetTransports(c.ethernetSegments))
    ensures var e := RouteError(n, route, Dictionary(LinTransports(c.linChannels)),
                                Dictionary(EthernetTransports(c.ethernetSegments)));
            var m := Configured(n, c);
            if e.None? then Joins(m, route) else RefusesJoin(m, route, e.value)
  {
    var m := Configured(n, c);
    JoinsExactly(m, route);
    RolesExactly(m.nodes, route.gateway, Gateway);
    LengthRefused(m, route.sourceProtocol, route.sourceContractId);
    LengthRefused(m, route.destinationProtocol, route.destinationContractId);
    hide DistinctTransports;
    hide LinTransports;
    hide EthernetTransports;
    hide Dictionary;
    hide Roles;
    hide LastRole;
    hide Joins;
    hide Undeclared;
    hide PayloadLength;
  }

  lemma {:induction false} FirstRefusedRoute(n: Net, c: ConfigureCommand, k: nat)
    requires DistinctTransports(LinTransports(c.linChannels))
    requires DistinctTransports(EthernetTransports(c.ethernetSegments))
    requires k <= |c.routes| && FirstRouteError(n, c, k).Some?
    ensures RefusedByRoute(n, c, FirstRouteError(n, c, k).value)
  {
    hide DistinctTransports;
    hide RouteError;
    hide RefusesJoin;
    hide Joins;
    if FirstRouteError(n, c, k - 1).Some? {
      FirstRefusedRoute(n, c, k - 1);
    } else {
      forall j | 0 <= j < k - 1 ensures Joins(Configured(n, c), c.routes[j]) {
        NoRouteError(n, c, k - 1, j);
        JoinRefused(n, c, c.routes[j]);
      }
      JoinRefused(n, c, c.routes[k - 1]);
    }
  }

  /** The error is that of the first route that is not allowed. */
  ghost predicate RefusedByRoute(n: Net, c: ConfigureCommand, e: Error) {
    exists i :: 0 <= i < |c.routes| && RefusesJoin(Configured(n, c), c.routes[i], e)
      && forall j :: 0 <= j < i ==> Joins(Configured(n, c), c.routes[j])
  }

  /**
   * Why a configuration is refused: duplicate transport contracts first, then LIN and then Ethernet contracts of
   * unknown nodes, then duplicate routes, then the first route that is not allowed.
   */
  lemma ConfigurationRefused(n: Net, c: ConfigureCommand, e: Error)
    requires ConfigurationError(n, c) == Some(e)
    ensures var m := Configured(n, c);
            if !DistinctLin(m) || !DistinctEthernet(m) then e == DuplicateTransportContract
            else if exists i :: 0 <= i < |c.linChannels| && !LinDeclared(m, c.linChannels[i]) then e == UnknownLinNode
            else if exists i :: 0 <= i < |c.ethernetSegments| && !EthernetDeclared(m, c.ethernetSegments[i])
            then e == UnknownEthernetNode
            else if exists i, j :: 0 <= i < j < |c.routes| && c.routes[i].identifier == c.routes[j].identifier
            then e == DuplicateRoute
            else RefusedByRoute(n, c, e)
  {
    hide DistinctTransports;
    hide DistinctLin;
    hide DistinctEthernet;
    hide LinTransports;
    hide EthernetTransports;
    hide LinDeclared;
    hide EthernetDeclared;
    hide LinKnown;
    hide EthernetKnown;
    hide Roles;
    hide RefusedByRoute;
    var m := Configured(n, c);
    DistinctLinExactly(m);
    DistinctEthernetExactly(m);
    forall i | 0 <= i < |c.linChannels|
      ensures LinKnown(c.linChannels[i], Roles(n.nodes).Keys) <==> LinDeclared(m, c.linChannels[i])
    {
      LinKnownExactly(m, c.linChannels[i]);
    }
    forall i | 0 <= i < |c.ethernetSegments|
      ensures EthernetKnown(c.ethernetSegments[i], Roles(n.nodes).Keys) <==> EthernetDeclared(m, c.ethernetSegments[i])
    {
      EthernetKnownExactly(m, c.ethernetSegments[i]);
    }
    if DistinctTransports(LinTransports(c.linChannels)) && DistinctTransports(EthernetTransports(c.ethernetSegments))
       && FirstRouteError(n, c, |c.routes|).Some? {
      FirstRefusedRoute(n, c, |c.routes|);
    }
    hide FirstRouteError;
  }
}

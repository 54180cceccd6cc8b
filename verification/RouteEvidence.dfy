/**
 * What an executed route and a campaign record, told by the network's contracts, channels and segments: which bits
 * go where, how long they take, and how each step of a campaign ends.
 */
module RouteEvidence {
  import opened Basics
  import opened Schemas
  import opened CanTiming
  import opened Store
  import opened MultiBus
  import opened Campaign
  import opened CampaignTheorems

  // ---------- declared contracts ----------

  /** Frame j of channel i is the LIN contract of that name. */
  predicate LinContract(n: Net, i: int, j: int, id: string) {
    && 0 <= i < |n.linChannels| && 0 <= j < |n.linChannels[i].frames|
    && n.linChannels[i].frames[j].identifier == id
  }

  /** Message j of segment i is the Ethernet contract of that name. */
  predicate EthernetContract(n: Net, i: int, j: int, id: string) {
    && 0 <= i < |n.ethernetSegments| && 0 <= j < |n.ethernetSegments[i].messages|
    && n.ethernetSegments[i].messages[j].identifier == id
  }

  /** (i, j) does not come after (k, m). */
  predicate Earlier(i: int, j: int, k: int, m: int) {
    i < k || (i == k && j <= m)
  }

  ghost predicate FirstLin(n: Net, i: int, j: int, id: string) {
    LinContract(n, i, j, id) && forall k, m :: LinContract(n, k, m, id) ==> Earlier(i, j, k, m)
  }

  ghost predicate FirstEthernet(n: Net, i: int, j: int, id: string) {
    EthernetContract(n, i, j, id) && forall k, m :: EthernetContract(n, k, m, id) ==> Earlier(i, j, k, m)
  }

  // ---------- the search ----------

  lemma {:induction false} FindAfter(a: seq<Transport>, b: seq<Transport>, id: string)
    ensures FindTransport(a + b, id) ==
            if FindTransport(a, id).Some? then FindTransport(a, id) else FindTransport(b, id)
  {
    if a == [] {
      assert a + b == b;
    } else {
      assert (a + b)[1..] == a[1..] + b;
      FindAfter(a[1..], b, id);
    }
  }

  ghost predicate FirstFrame(frames: seq<LinFrame>, j: int, id: string) {
    0 <= j < |frames| && frames[j].identifier == id && forall m :: 0 <= m < j ==> frames[m].identifier != id
  }

  ghost predicate FirstMessage(messages: seq<EthernetMessage>, j: int, id: string) {
    0 <= j < |messages| && messages[j].identifier == id && forall m :: 0 <= m < j ==> messages[m].identifier != id
  }

  lemma {:induction false} FindInChannel(frames: seq<LinFrame>, rate: Positive, id: string)
    ensures var r := FindTransport(ChannelTransports(frames, rate), id);
            && (r.Some? ==> exists j :: FirstFrame(frames, j, id)
                              && r.value == Transport(id, frames[j].payloadLength, rate))
            && (r.None? ==> forall j :: 0 <= j < |frames| ==> frames[j].identifier != id)
  {
    if frames != [] {
      var rest := frames[1..];
      FindInChannel(rest, rate, id);
      assert forall j :: 0 < j < |frames| ==> frames[j] == rest[j - 1];
      if frames[0].identifier == id {
        assert FirstFrame(frames, 0, id);
      } else if FindTransport(ChannelTransports(rest, rate), id).Some? {
        var j :| FirstFrame(rest, j, id) && FindTransport(ChannelTransports(rest, rate), id) ==
                 Some(Transport(id, rest[j].payloadLength, rate));
        assert FirstFrame(frames, j + 1, id);
      }
    }
  }

  lemma {:induction false} FindInSegment(messages: seq<EthernetMessage>, rate: Positive, id: string)
    ensures var r := FindTransport(SegmentTransports(messages, rate), id);
            && (r.Some? ==> exists j :: FirstMessage(messages, j, id)
                              && r.value == Transport(id, messages[j].payloadLength, rate))
            && (r.None? ==> forall j :: 0 <= j < |messages| ==> messages[j].identifier != id)
  {
    if messages != [] {
      var rest := messages[1..];
      FindInSegment(rest, rate, id);
      assert forall j :: 0 < j < |messages| ==> messages[j] == rest[j - 1];
      if messages[0].identifier == id {
        assert FirstMessage(messages, 0, id);
      } else if FindTransport(SegmentTransports(rest, rate), id).Some? {
        var j :| FirstMessage(rest, j, id) && FindTransport(SegmentTransports(rest, rate), id) ==
                 Some(Transport(id, rest[j].payloadLength, rate));
        assert FirstMessage(messages, j + 1, id);
      }
    }
  }

  /** The transport of contract j on channel i. */
  function LinTransport(n: Net, i: int, j: int): Transport
    requires 0 <= i < |n.linChannels| && 0 <= j < |n.linChannels[i].frames|
  {
    var frame := n.linChannels[i].frames[j];
    Transport(frame.identifier, frame.payloadLength, n.linChannels[i].bitrateKbps)
  }

  function EthernetTransport(n: Net, i: int, j: int): Transport
    requires 0 <= i < |n.ethernetSegments| && 0 <= j < |n.ethernetSegments[i].messages|
  {
    var message := n.ethernetSegments[i].messages[j];
    Transport(message.identifier, message.payloadLength, n.ethernetSegments[i].speedMbps)
  }

  /** The LIN search finds the first contract of the name, channel by channel, at its channel's bitrate. */
  lemma {:induction false} LinFound(n: Net, id: string)
    ensures var r := FindTransport(LinTransports(n.linChannels), id);
            && (r.Some? ==> exists i, j :: FirstLin(n, i, j, id) && r.value == LinTransport(n, i, j))
            && (r.None? ==> forall i, j :: !LinContract(n, i, j, id))
    decreases |n.linChannels|
  {
    if n.linChannels != [] {
      var first, rest := n.linChannels[0], n.(linChannels := n.linChannels[1..]);
      var here := ChannelTransports(first.frames, first.bitrateKbps);
      FindAfter(here, LinTransports(rest.linChannels), id);
      FindInChannel(first.frames, first.bitrateKbps, id);
      LinFound(rest, id);
      hide FirstFrame;
      hide FirstLin;
      if FindTransport(here, id).Some? {
        var j :| FirstFrame(first.frames, j, id)
                 && FindTransport(here, id).value == Transport(id, first.frames[j].payloadLength, first.bitrateKbps);
        LinHere(n, j, id);
      } else if FindTransport(LinTransports(rest.linChannels), id).Some? {
        var i, j :| FirstLin(rest, i, j, id)
                    && FindTransport(LinTransports(rest.linChannels), id).value == LinTransport(rest, i, j);
        LinBehind(n, i, j, id);
      } else {
        LinNowhere(n, id);
      }
    }
  }

  lemma LinHere(n: Net, j: int, id: string)
    requires n.linChannels != [] && FirstFrame(n.linChannels[0].frames, j, id)
    ensures FirstLin(n, 0, j, id) && LinTransport(n, 0, j) ==
            Transport(id, n.linChannels[0].frames[j].payloadLength, n.linChannels[0].bitrateKbps)
  {}

  lemma LinBehind(n: Net, i: int, j: int, id: string)
    requires n.linChannels != [] && FirstLin(n.(linChannels := n.linChannels[1..]), i, j, id)
    requires forall m :: 0 <= m < |n.linChannels[0].frames| ==> n.linChannels[0].frames[m].identifier != id
    ensures FirstLin(n, i + 1, j, id)
    ensures LinTransport(n, i + 1, j) == LinTransport(n.(linChannels := n.linChannels[1..]), i, j)
  {
    var rest := n.(linChannels := n.linChannels[1..]);
    forall k, m | LinContract(n, k, m, id) ensures Earlier(i + 1, j, k, m) {
      assert k > 0 ==> LinContract(rest, k - 1, m, id);
    }
  }

  lemma LinNowhere(n: Net, id: string)
    requires n.linChannels != []
    requires forall m :: 0 <= m < |n.linChannels[0].frames| ==> n.linChannels[0].frames[m].identifier != id
    requires forall i, j :: !LinContract(n.(linChannels := n.linChannels[1..]), i, j, id)
    ensures forall i, j :: !LinContract(n, i, j, id)
  {
    forall i, j ensures !LinContract(n, i, j, id) {
      assert !LinContract(n.(linChannels := n.linChannels[1..]), i - 1, j, id);
    }
  }

  lemma {:induction false} EthernetFound(n: Net, id: string)
    ensures var r := FindTransport(EthernetTransports(n.ethernetSegments), id);
            && (r.Some? ==> exists i, j :: FirstEthernet(n, i, j, id) && r.value == EthernetTransport(n, i, j))
            && (r.None? ==> forall i, j :: !EthernetContract(n, i, j, id))
    decreases |n.ethernetSegments|
  {
    if n.ethernetSegments != [] {
      var first, rest := n.ethernetSegments[0], n.(ethernetSegments := n.ethernetSegments[1..]);
      var here := SegmentTransports(first.messages, first.speedMbps);
      FindAfter(here, EthernetTransports(rest.ethernetSegments), id);
      FindInSegment(first.messages, first.speedMbps, id);
      EthernetFound(rest, id);
      hide FirstMessage;
      hide FirstEthernet;
      if FindTransport(here, id).Some? {
        var j :| FirstMessage(first.messages, j, id)
                 && FindTransport(here, id).value == Transport(id, first.messages[j].payloadLength, first.speedMbps);
        EthernetHere(n, j, id);
      } else if FindTransport(EthernetTransports(rest.ethernetSegments), id).Some? {
        var i, j :| FirstEthernet(rest, i, j, id)
                    && FindTransport(EthernetTransports(rest.ethernetSegments), id).value ==
                       EthernetTransport(rest, i, j);
        EthernetBehind(n, i, j, id);
      } else {
        EthernetNowhere(n, id);
      }
    }
  }

  lemma EthernetHere(n: Net, j: int, id: string)
    requires n.ethernetSegments != [] && FirstMessage(n.ethernetSegments[0].messages, j, id)
    ensures FirstEthernet(n, 0, j, id) && EthernetTransport(n, 0, j) ==
            Transport(id, n.ethernetSegments[0].messages[j].payloadLength, n.ethernetSegments[0].speedMbps)
  {}

  lemma EthernetBehind(n: Net, i: int, j: int, id: string)
    requires n.ethernetSegments != [] && FirstEthernet(n.(ethernetSegments := n.ethernetSegments[1..]), i, j, id)
    requires forall m :: 0 <= m < |n.ethernetSegments[0].messages| ==>
               n.ethernetSegments[0].messages[m].identifier != id
    ensures FirstEthernet(n, i + 1, j, id)
    ensures EthernetTransport(n, i + 1, j) ==
            EthernetTransport(n.(ethernetSegments := n.ethernetSegments[1..]), i, j)
  {
    var rest := n.(ethernetSegments := n.ethernetSegments[1..]);
    forall k, m | EthernetContract(n, k, m, id) ensures Earlier(i + 1, j, k, m) {
      assert k > 0 ==> EthernetContract(rest, k - 1, m, id);
    }
  }

  lemma EthernetNowhere(n: Net, id: string)
    requires n.ethernetSegments != []
    requires forall m :: 0 <= m < |n.ethernetSegments[0].messages| ==>
               n.ethernetSegments[0].messages[m].identifier != id
    requires forall i, j :: !EthernetContract(n.(ethernetSegments := n.ethernetSegments[1..]), i, j, id)
    ensures forall i, j :: !EthernetContract(n, i, j, id)
  {
    forall i, j ensures !EthernetContract(n, i, j, id) {
      assert !EthernetContract(n.(ethernetSegments := n.ethernetSegments[1..]), i - 1, j, id);
    }
  }

  // ---------- bits and times on the destination bus ----------

  /** A LIN frame: a header of 33 bits and a response of ten bits per data byte and for the checksum. */
  ghost predicate LinTimed(n: Net, id: string, length: nat, us: nat, timing: BusTiming) {
    exists i, j :: FirstLin(n, i, j, id) && n.linChannels[i].frames[j].payloadLength == length
      && timing.rate == n.linChannels[i].bitrateKbps && timing.bitCount == 33 + 10 * (length + 1)
      && Takes(us, timing.bitCount, timing.rate)
  }

  /** An Ethernet frame: 38 bytes besides its payload, at a speed in bits per microsecond. */
  ghost predicate EthernetTimed(n: Net, id: string, length: nat, us: nat, timing: BusTiming) {
    exists i, j :: FirstEthernet(n, i, j, id) && n.ethernetSegments[i].messages[j].payloadLength == length
      && timing.rate == n.ethernetSegments[i].speedMbps && timing.bitCount == 8 * (38 + length)
      && (us - 1) * timing.rate < timing.bitCount <= us * timing.rate
  }

  /** A CAN frame: the bits of both phases, and their times; the rate reported is the nominal one. */
  ghost predicate CanTimed(n: Net, id: string, length: nat, us: nat, timing: BusTiming) {
    exists c, t :: FindContract(n.contracts, id) == Some(c) && c.dlc == length && Timed(c, n.rates, t)
      && timing == BusTiming(t.nominalBits + t.dataBits, n.rates.nominal) && us == t.nominalPhase + t.dataPhase
  }

  ghost predicate DestinationTimed(n: Net, route: Route, length: nat, us: nat, timing: BusTiming) {
    match route.destinationProtocol
    case Can => CanTimed(n, route.destinationContractId, length, us, timing)
    case Lin => LinTimed(n, route.destinationContractId, length, us, timing)
    case Ethernet => EthernetTimed(n, route.destinationContractId, length, us, timing)
  }

  ghost predicate DestinationMissing(n: Net, route: Route) {
    match route.destinationProtocol
    case Can => FindContract(n.contracts, route.destinationContractId).None?
    case Lin => forall i, j :: !LinContract(n, i, j, route.destinationContractId)
    case Ethernet => forall i, j :: !EthernetContract(n, i, j, route.destinationContractId)
  }

  lemma CanDestination(n: Net, route: Route, t: Target)
    requires route.destinationProtocol.Can?
    ensures Destination(n, route) == Ok(t) <==> DestinationTimed(n, route, t.payloadLength, t.duration, t.timing)
    ensures Destination(n, route).Err? <==> DestinationMissing(n, route)
  {
    var found := FindContract(n.contracts, route.destinationContractId);
    if found.Some? {
      var timing := FrameTiming(found.value, n.rates);
      forall other: Timing ensures Timed(found.value, n.rates, other) <==> other == timing {
        FrameTimingExactly(found.value, n.rates, other);
      }
    }
    hide FrameTiming;
    hide Timed;
  }

  lemma LinDestination(n: Net, route: Route, t: Target)
    requires route.destinationProtocol.Lin?
    ensures Destination(n, route) == Ok(t) <==> DestinationTimed(n, route, t.payloadLength, t.duration, t.timing)
    ensures Destination(n, route).Err? <==> DestinationMissing(n, route)
  {
    var id := route.destinationContractId;
    LinFound(n, id);
    if FindTransport(LinTransports(n.linChannels), id).Some? {
      var i, j :| FirstLin(n, i, j, id)
                  && FindTransport(LinTransports(n.linChannels), id).value == LinTransport(n, i, j);
      DurationExactly(43 + 10 * LinTransport(n, i, j).payloadLength, LinTransport(n, i, j).rate, t.duration);
      forall k, m | FirstLin(n, k, m, id) ensures k == i && m == j {
        assert Earlier(k, m, i, j) && Earlier(i, j, k, m);
      }
    } else {
      forall k, m ensures !FirstLin(n, k, m, id) {}
    }
    hide FirstLin;
    hide LinTransports;
    hide Takes;
    hide CeilDiv;
  }

  lemma EthernetDestination(n: Net, route: Route, t: Target)
    requires route.destinationProtocol.Ethernet?
    ensures Destination(n, route) == Ok(t) <==> DestinationTimed(n, route, t.payloadLength, t.duration, t.timing)
    ensures Destination(n, route).Err? <==> DestinationMissing(n, route)
  {
    var id := route.destinationContractId;
    EthernetFound(n, id);
    if FindTransport(EthernetTransports(n.ethernetSegments), id).Some? {
      var i, j :| FirstEthernet(n, i, j, id)
                  && FindTransport(EthernetTransports(n.ethernetSegments), id).value == EthernetTransport(n, i, j);
      LeastMultiple((38 + EthernetTransport(n, i, j).payloadLength) * 8, EthernetTransport(n, i, j).rate, t.duration);
      forall k, m | FirstEthernet(n, k, m, id) ensures k == i && m == j {
        assert Earlier(k, m, i, j) && Earlier(i, j, k, m);
      }
    } else {
      forall k, m ensures !FirstEthernet(n, k, m, id) {}
    }
    hide FirstEthernet;
    hide EthernetTransports;
    hide CeilDiv;
  }

  /** A destination resolves to exactly the length, time and bits that its contract, channel and segment give. */
  lemma DestinationExactly(n: Net, route: Route, t: Target)
    ensures Destination(n, route) == Ok(t) <==> DestinationTimed(n, route, t.payloadLength, t.duration, t.timing)
    ensures Destination(n, route).Err? <==> DestinationMissing(n, route)
  {
    hide Destination;
    hide DestinationTimed;
    hide DestinationMissing;
    match route.destinationProtocol
    case Can => CanDestination(n, route, t);
    case Lin => LinDestination(n, route, t);
    case Ethernet => EthernetDestination(n, route, t);
  }

  // ---------- routes ----------

  /**
   * The row of an executed route: a stored route of that name, started after the requested time, for the time that
   * the destination bus takes to carry a frame of the payload's length, under the next sequence number.
   */
  ghost predicate TellsRoute(n: Net, c: RouteCommand, row: Row, after: Net) {
    && row.GatewayRow? && row.commandId == c.commandId && row.gateway == RouteFrame(c) && row.routed.Some?
    && var r := row.routed.value;
    && r.route in n.routes && r.route.identifier == c.routeId
    && r.payloadLength == |c.payload|
    && DestinationTimed(n, r.route, |c.payload|, r.duration, r.timing)
    && r.sequence == n.nextSequence
    && r.startedAt == n.time + c.advance && r.completedAt == r.startedAt + r.duration
    && row.previousVersion == c.expectedVersion == n.version && row.networkVersion == n.version + 1
    && after == n.(time := r.completedAt, nextSequence := n.nextSequence + 1, version := n.version + 1)
  }

  lemma RouteRecords(l: Ledger, c: RouteCommand)
    requires ExecuteRoute(l, c).outcome.Done?
    ensures var a := ExecuteRoute(l, c);
            a.ledger.rows == l.rows + [a.outcome.row] && TellsRoute(l.net, c, a.outcome.row, a.ledger.net)
  {
    hide Find;
    hide DestinationTimed;
    var route := FindRoute(l.net.routes, c.routeId).value;
    DestinationExactly(l.net, route, Destination(l.net, route).value);
    hide Destination;
  }

  /** Why a route of that name cannot carry so many bytes: it or its destination is missing, or the length differs. */
  ghost predicate RefusesRoute(n: Net, routeId: string, length: nat, e: Error) {
    || (e == UnknownRoute && forall i :: 0 <= i < |n.routes| ==> n.routes[i].identifier != routeId)
    || exists r :: FindRoute(n.routes, routeId) == Some(r) && RefusesDestination(n, r, length, e)
  }

  ghost predicate RefusesDestination(n: Net, r: Route, length: nat, e: Error) {
    if DestinationMissing(n, r) then e == (if r.destinationProtocol == Can then UnknownContract else UnknownDestination)
    else e == WrongPayloadLength && forall us, timing :: !DestinationTimed(n, r, length, us, timing)
  }

  lemma DestinationRefused(n: Net, r: Route, length: nat)
    ensures Destination(n, r).Err? ==> RefusesDestination(n, r, length, Destination(n, r).error)
    ensures Destination(n, r).Ok? && Destination(n, r).value.payloadLength != length ==>
              RefusesDestination(n, r, length, WrongPayloadLength)
  {
    if Destination(n, r).Err? {
      DestinationExactly(n, r, Target(0, 0, BusTiming(0, 1)));
      DestinationError(n, r);
      hide Destination;
    } else {
      DestinationExactly(n, r, Destination(n, r).value);
      forall us, timing ensures Destination(n, r).value.payloadLength != length ==>
                                  !DestinationTimed(n, r, length, us, timing) {
        DestinationExactly(n, r, Target(length, us, timing));
      }
    }
    hide DestinationTimed;
    hide DestinationMissing;
    hide Destination;
  }

  lemma DestinationError(n: Net, r: Route)
    ensures Destination(n, r).Err? ==>
              Destination(n, r).error == (if r.destinationProtocol == Can then UnknownContract else UnknownDestination)
  {}

  /** The error of a refused route command whose id is free and whose version is current. */
  lemma RouteRefused(l: Ledger, c: RouteCommand)
    requires Find(l.rows, GatewayExecutions, c.commandId).None? && c.expectedVersion == l.net.version
    requires !ExecuteRoute(l, c).outcome.Done?
    ensures ExecuteRoute(l, c).outcome.Rejected? && ExecuteRoute(l, c).ledger == l
    ensures RefusesRoute(l.net, c.routeId, |c.payload|, ExecuteRoute(l, c).outcome.error)
  {
    hide Find;
    hide RefusesDestination;
    var found := FindRoute(l.net.routes, c.routeId);
    if found.Some? {
      DestinationRefused(l.net, found.value, |c.payload|);
    }
    hide Destination;
  }

  // ---------- campaigns ----------

  /** Why a step stops a campaign before it starts; a missing CAN contract keeps its own error. */
  ghost predicate RefusesStep(n: Net, step: CampaignStep, e: Error) {
    exists cause :: RefusesRoute(n, step.routeId, |step.payload|, cause) && e == StepError(step, cause)
  }

  function StepError(step: CampaignStep, cause: Error): Error {
    match cause
    case WrongPayloadLength => InvalidStepPayload(step.identifier)
    case UnknownContract => UnknownContract
    case _ => InvalidStepRoute(step.identifier)
  }

  lemma StepRefused(n: Net, step: CampaignStep)
    requires PrepareStep(n, step).Err?
    ensures RefusesStep(n, step, PrepareStep(n, step).error)
  {
    hide RefusesDestination;
    var found := FindRoute(n.routes, step.routeId);
    if found.None? {
      assert RefusesRoute(n, step.routeId, |step.payload|, UnknownRoute);
    } else {
      DestinationRefused(n, found.value, |step.payload|);
      DestinationError(n, found.value);
      var target := Destination(n, found.value);
      hide Destination;
      assert RefusesRoute(n, step.routeId, |step.payload|, if target.Err? then target.error else WrongPayloadLength);
    }
  }

  lemma {:induction false} FirstRefusedStep(n: Net, steps: seq<CampaignStep>, k: nat)
    requires k <= |steps| && PrepareUpTo(n, steps, k).Err?
    ensures RefusedByStep(n, steps, k, PrepareUpTo(n, steps, k).error)
  {
    hide PrepareStep;
    hide RefusedByStep;
    if PrepareUpTo(n, steps, k - 1).Err? {
      FirstRefusedStep(n, steps, k - 1);
      RefusedBefore(n, steps, k, PrepareUpTo(n, steps, k - 1).error);
    } else {
      PreparedSteps(n, steps, k - 1);
      StepRefused(n, steps[k - 1]);
      RefusedNow(n, steps, k, PrepareStep(n, steps[k - 1]).error);
    }
  }

  /** The error is that of the first of the first k steps that is not in order. */
  ghost predicate RefusedByStep(n: Net, steps: seq<CampaignStep>, k: nat, e: Error)
    requires k <= |steps|
  {
    exists i :: 0 <= i < k && RefusesStep(n, steps[i], e) && forall j :: 0 <= j < i ==> PrepareStep(n, steps[j]).Ok?
  }

  lemma RefusedBefore(n: Net, steps: seq<CampaignStep>, k: nat, e: Error)
    requires 0 < k <= |steps| && RefusedByStep(n, steps, k - 1, e)
    ensures RefusedByStep(n, steps, k, e)
  {
    hide PrepareStep;
    hide RefusesStep;
  }

  lemma RefusedNow(n: Net, steps: seq<CampaignStep>, k: nat, e: Error)
    requires 0 < k <= |steps| && RefusesStep(n, steps[k - 1], e)
    requires forall j :: 0 <= j < k - 1 ==> PrepareStep(n, steps[j]).Ok?
    ensures RefusedByStep(n, steps, k, e)
  {
    hide PrepareStep;
    hide RefusesStep;
  }

  /** A campaign under a free id and the current version is refused for its first step that is not in order. */
  lemma CampaignRefused(l: Ledger, c: CampaignCommand)
    requires Find(l.rows, Campaigns, c.commandId).None? && c.expectedVersion == l.net.version
    requires !ExecuteCampaign(l, c).outcome.Done?
    ensures ExecuteCampaign(l, c).outcome.Rejected? && ExecuteCampaign(l, c).ledger == l
    ensures RefusedByStep(l.net, c.steps, |c.steps|, ExecuteCampaign(l, c).outcome.error)
  {
    hide Find;
    hide RefusedByStep;
    hide PrepareStep;
    FirstRefusedStep(l.net, c.steps, |c.steps|);
    hide PrepareUpTo;
  }

  /** How a step ends: it fails by its fault, else it is late, else it is delivered. */
  predicate Ends(step: CampaignStep, us: nat, outcome: StepOutcome, late: bool) {
    && (late <==> step.latencyBudget.Some? && step.latencyBudget.value < us)
    && (step.fault != NoFault ==> outcome == Failed(step.fault))
    && (step.fault == NoFault ==> outcome == (if late then PerformanceViolation else Delivered))
  }

  /**
   * Trace i of a campaign: its step's stored route, started the step's advance after the previous trace ended. A
   * step through an available gateway is sent, and takes the time of its destination bus, even when the frame is
   * lost; otherwise nothing is sent and no time passes.
   */
  ghost predicate TellsStep(n: Net, step: CampaignStep, traces: seq<Trace>, i: nat)
    requires i < |traces|
  {
    var t := traces[i];
    && t.step == i + 1 && t.stepId == step.identifier && t.fault == step.fault
    && t.route in n.routes && t.route.identifier == step.routeId && t.payloadLength == |step.payload|
    && t.startedAt == (if i == 0 then n.time else traces[i - 1].completedAt) + step.advance
    && t.completedAt == t.startedAt + t.duration
    && Ends(step, t.duration, t.outcome, t.budgetExceeded)
    && (step.fault == GatewayUnavailable ==> t.sequence.None? && t.timing.None? && t.duration == 0)
    && (step.fault != GatewayUnavailable ==>
          && t.sequence.Some? && t.timing.Some?
          && DestinationTimed(n, t.route, |step.payload|, t.duration, t.timing.value))
  }

  lemma PreparedExactly(n: Net, step: CampaignStep, p: Prepared)
    requires PrepareStep(n, step) == Ok(p)
    ensures p.route in n.routes && p.route.identifier == step.routeId && p.target.payloadLength == |step.payload|
    ensures DestinationTimed(n, p.route, |step.payload|, p.target.duration, p.target.timing)
  {
    hide DestinationTimed;
    DestinationExactly(n, p.route, p.target);
    hide Destination;
  }

  lemma {:induction false} TraceIs(n: Net, steps: seq<CampaignStep>, prepared: seq<Prepared>, k: nat, i: nat)
    requires |prepared| == |steps| && i < k <= |steps|
    ensures |RunUpTo(n, steps, prepared, k).traces| == k
    ensures |RunUpTo(n, steps, prepared, i).traces| == i
    ensures RunUpTo(n, steps, prepared, k).traces[i] == TraceOf(RunUpTo(n, steps, prepared, i), steps[i], prepared[i])
    decreases k
  {
    hide RunUpTo;
    hide TraceOf;
    NextTraces(n, steps, prepared, k);
    if i < k - 1 {
      TraceIs(n, steps, prepared, k - 1, i);
    }
  }

  lemma StepTold(n: Net, steps: seq<CampaignStep>, prepared: seq<Prepared>, i: nat)
    requires Prepare(n, steps) == Ok(prepared) && i < |steps|
    ensures var t := RunUpTo(n, steps, prepared, |steps|);
            |t.traces| == |steps| && TellsStep(n, steps[i], t.traces, i)
  {
    hide DestinationTimed;
    PreparedStep(n, steps, prepared, i);
    PreparedExactly(n, steps[i], prepared[i]);
    TraceIs(n, steps, prepared, |steps|, i);
    TracesContiguous(n, steps, prepared, |steps|, i);
    hide Prepare;
    hide PrepareStep;
    hide RunUpTo;
  }

  /** Which traces carry numbers: the sent ones, consecutively, in order. */
  lemma {:induction false} SentNumbers(n: Net, steps: seq<CampaignStep>, prepared: seq<Prepared>, k: nat, i: nat)
    requires |prepared| == |steps| && i < k <= |steps|
    ensures |RunUpTo(n, steps, prepared, k).traces| == k
    ensures var traces := RunUpTo(n, steps, prepared, k).traces;
            traces[i].sequence.Some? ==> traces[i].sequence.value == n.nextSequence + |SentTraces(traces[..i])|
  {
    TraceIs(n, steps, prepared, k, i);
    SentBefore(n, steps, prepared, k, i);
    hide RunUpTo;
    hide SentTraces;
  }

  lemma {:induction false} SentBefore(n: Net, steps: seq<CampaignStep>, prepared: seq<Prepared>, k: nat, i: nat)
    requires |prepared| == |steps| && i <= k <= |steps|
    ensures |RunUpTo(n, steps, prepared, k).traces| == k
    ensures RunUpTo(n, steps, prepared, i).nextSequence ==
            n.nextSequence + |SentTraces(RunUpTo(n, steps, prepared, k).traces[..i])|
    decreases k
  {
    hide RunUpTo;
    hide SentTraces;
    if i < k {
      SentBefore(n, steps, prepared, k - 1, i);
      NextTraces(n, steps, prepared, k);
      assert RunUpTo(n, steps, prepared, k).traces[..i] == RunUpTo(n, steps, prepared, k - 1).traces[..i];
    } else {
      SentSoFar(n, steps, prepared, k);
      assert RunUpTo(n, steps, prepared, k).traces[..k] == RunUpTo(n, steps, prepared, k).traces;
    }
  }

  lemma NextTraces(n: Net, steps: seq<CampaignStep>, prepared: seq<Prepared>, k: nat)
    requires |prepared| == |steps| && 0 < k <= |steps|
    ensures var before, after := RunUpTo(n, steps, prepared, k - 1).traces, RunUpTo(n, steps, prepared, k).traces;
            && |before| == k - 1 && |after| == k && after[..k - 1] == before
            && after[k - 1] == TraceOf(RunUpTo(n, steps, prepared, k - 1), steps[k - 1], prepared[k - 1])
  {
    hide TraceOf;
    TotalsCountTraces(n, steps, prepared, k - 1);
    hide Counted;
  }

  lemma SentSoFar(n: Net, steps: seq<CampaignStep>, prepared: seq<Prepared>, k: nat)
    requires |prepared| == |steps| && k <= |steps|
    ensures var t := RunUpTo(n, steps, prepared, k);
            |t.traces| == k && t.nextSequence == n.nextSequence + |SentTraces(t.traces)|
  {
    TotalsCountTraces(n, steps, prepared, k);
    SentCount(RunUpTo(n, steps, prepared, k).traces);
    hide RunUpTo;
    hide SentTraces;
  }

  lemma {:induction false} SentCount(traces: seq<Trace>)
    ensures |SentTraces(traces)| == |SentDurations(traces)|
  {
    if traces != [] {
      SentCount(traces[..|traces| - 1]);
    }
  }

  lemma EndsAtLast(n: Net, steps: seq<CampaignStep>, prepared: seq<Prepared>)
    requires |prepared| == |steps|
    ensures var t := RunUpTo(n, steps, prepared, |steps|);
            t.time == (if t.traces == [] then n.time else t.traces[|t.traces| - 1].completedAt)
  {
    if steps != [] {
      TracesContiguous(n, steps, prepared, |steps|, 0);
    }
    hide TraceFits;
  }

  /** The record of a campaign: one trace per step, as its route, fault and budget say; the sent ones numbered on. */
  lemma CampaignRecords(l: Ledger, c: CampaignCommand)
    requires ExecuteCampaign(l, c).outcome.Done?
    ensures var row := ExecuteCampaign(l, c).outcome.row;
            && row.CampaignRow? && row.campaign == c
            && var traces := row.campaignResult.traces;
            && |traces| == |c.steps|
            && (forall i :: 0 <= i < |traces| ==> TellsStep(l.net, c.steps[i], traces, i))
            && (forall i :: 0 <= i < |traces| && traces[i].sequence.Some? ==>
                  traces[i].sequence.value == l.net.nextSequence + |SentTraces(traces[..i])|)
            && row.campaignResult.startedAt == l.net.time
            && row.campaignResult.completedAt == (if traces == [] then l.net.time else traces[|traces| - 1].completedAt)
            && row.campaignResult.window == row.campaignResult.completedAt - row.campaignResult.startedAt
            && ExecuteCampaign(l, c).ledger.net ==
               l.net.(time := row.campaignResult.completedAt,
                      nextSequence := l.net.nextSequence + |SentTraces(traces)|, version := l.net.version + 1)
            && ExecuteCampaign(l, c).ledger.rows == l.rows + [row]
  {
    hide TellsStep;
    hide RunUpTo;
    hide SentTraces;
    hide Find;
    var prepared := Prepare(l.net, c.steps).value;
    hide Prepare;
    TotalsCountTraces(l.net, c.steps, prepared, |c.steps|);
    SentSoFar(l.net, c.steps, prepared, |c.steps|);
    EndsAtLast(l.net, c.steps, prepared);
    hide Counted;
    forall i | 0 <= i < |c.steps|
      ensures TellsStep(l.net, c.steps[i], RunUpTo(l.net, c.steps, prepared, |c.steps|).traces, i)
      ensures var traces := RunUpTo(l.net, c.steps, prepared, |c.steps|).traces;
              traces[i].sequence.Some? ==>
                traces[i].sequence.value == l.net.nextSequence + |SentTraces(traces[..i])|
    {
      StepTold(l.net, c.steps, prepared, i);
      SentNumbers(l.net, c.steps, prepared, |c.steps|, i);
    }
  }
}

/** One arbitration batch: resolving contenders, running the bus, and recording every frame. */
module Arbitration {
  import opened Basics
  import opened Schemas
  import opened CanTiming
  import opened ErrorConfinement
  import opened Store
  import opened Rounding
  import opened Scheduling

  // ---------- resolving contenders ----------

  function Resolve(n: Net, c: ContenderRequest): Result<Contender, Error> {
    match FindContract(n.contracts, c.contractId)
    case None => Err(UnknownContract)
    case Some(contract) =>
      if c.producer != contract.producer then Err(ForeignProducer)
      else if IsBusOff(n.errorStates, c.producer) then Err(NodeBusOff)
      else if |c.payload| != contract.dlc then Err(WrongPayloadLength)
      else Ok(Contender(contract, c.producer, c.payload, n.time + c.readyOffset))
  }

  /** The first k requests resolved, or the error of the first one that does not resolve. */
  function ResolveUpTo(n: Net, cs: seq<ContenderRequest>, k: nat): (r: Result<seq<Contender>, Error>)
    requires k <= |cs|
    ensures r.Ok? ==> |r.value| == k
  {
    if k == 0 then Ok([]) else
      match ResolveUpTo(n, cs, k - 1)
      case Err(e) => Err(e)
      case Ok(acc) =>
        match Resolve(n, cs[k - 1])
        case Err(e) => Err(e)
        case Ok(c) => Ok(acc + [c])
  }

  lemma {:induction false} ResolveErrorStays(n: Net, cs: seq<ContenderRequest>, j: nat, k: nat)
    requires j <= k <= |cs| && ResolveUpTo(n, cs, j).Err?
    ensures ResolveUpTo(n, cs, k) == ResolveUpTo(n, cs, j)
    decreases k
  {
    if j < k {
      ResolveErrorStays(n, cs, j, k - 1);
    }
  }

  lemma {:induction false} ResolvedContenders(n: Net, cs: seq<ContenderRequest>, k: nat)
    requires k <= |cs|
    ensures ResolveUpTo(n, cs, k).Ok? <==> forall i :: 0 <= i < k ==> Resolve(n, cs[i]).Ok?
    ensures ResolveUpTo(n, cs, k).Ok? ==>
            forall i :: 0 <= i < k ==> Resolve(n, cs[i]) == Ok(ResolveUpTo(n, cs, k).value[i])
  {
    if k > 0 {
      ResolvedContenders(n, cs, k - 1);
    }
  }

  method ResolveContenders(network: CanNetwork, command: ArbitrationCommand) returns (r: Result<seq<Contender>, Error>)
    ensures r == ResolveUpTo(network.View(), command.contenders, |command.contenders|)
  {
    var resolved: seq<Contender> := [];
    ghost var cs := command.contenders;
    for k := 0 to |command.contenders|
      invariant ResolveUpTo(network.View(), cs, k) == Ok(resolved)
    {
      var contender := command.contenders[k];
      var next := Resolve(network.View(), contender);
      if next.Err? {
        ResolveErrorStays(network.View(), cs, k + 1, |cs|);
        return Err(next.error);
      }
      resolved := resolved + [next.value];
    }
    return Ok(resolved);
  }

  // ---------- running the bus ----------

  function CostOf(r: Rates): CostModel {
    (c: Contender) => Duration(c.contract, r)
  }

  /** `[item for item in pending if item.ready_at_us <= clock]` */
  function ReadyAt(pending: seq<Contender>, clock: nat): seq<Contender> {
    if pending == [] then []
    else (if pending[0].readyAt <= clock then [pending[0]] else []) + ReadyAt(pending[1..], clock)
  }

  function EarliestReady(pending: seq<Contender>): nat
    requires pending != []
  {
    if |pending| == 1 then pending[0].readyAt else Min(pending[0].readyAt, EarliestReady(pending[1..]))
  }

  /** `min(ready, key=...)`: the first element no other element precedes. */
  function Winner(ready: seq<Contender>): Contender
    requires ready != []
  {
    if |ready| == 1 then ready[0] else
      var rest := Winner(ready[1..]);
      if KeyLess(rest, ready[0]) then rest else ready[0]
  }

  /** `pending.remove(c)` */
  function Remove(pending: seq<Contender>, c: Contender): seq<Contender> {
    if pending == [] then []
    else if pending[0] == c then pending[1..]
    else [pending[0]] + Remove(pending[1..], c)
  }

  function FreeInstant(pending: seq<Contender>, clock: nat): nat
    requires pending != []
  {
    if ReadyAt(pending, clock) != [] then clock else EarliestReady(pending)
  }

  ghost function Elements(cs: seq<Contender>): set<Contender> {
    set c | c in cs
  }

  ghost predicate DistinctIds(cs: seq<Contender>) {
    forall i, j :: 0 <= i < j < |cs| ==> cs[i].contract.identifier != cs[j].contract.identifier
  }

  lemma {:induction false} ReadyAtElements(pending: seq<Contender>, clock: nat)
    ensures forall c :: c in ReadyAt(pending, clock) <==> c in pending && c.readyAt <= clock
  {
    if pending != [] {
      ReadyAtElements(pending[1..], clock);
      assert pending == [pending[0]] + pending[1..];
    }
  }

  lemma {:induction false} EarliestReadyIsLeast(pending: seq<Contender>)
    requires pending != []
    ensures exists c :: c in pending && c.readyAt == EarliestReady(pending)
    ensures forall c :: c in pending ==> EarliestReady(pending) <= c.readyAt
  {
    assert pending[0] in pending;
    if |pending| > 1 {
      EarliestReadyIsLeast(pending[1..]);
      assert pending == [pending[0]] + pending[1..];
    }
  }

  lemma {:induction false} WinnerIsLeast(ready: seq<Contender>)
    requires ready != []
    requires forall c, d :: c in ready && d in ready && c != d ==> c.contract.identifier != d.contract.identifier
    ensures Winner(ready) in ready
    ensures forall c :: c in ready && c != Winner(ready) ==> KeyLess(Winner(ready), c)
  {
    if |ready| > 1 {
      var first, rest := ready[0], ready[1..];
      assert ready == [first] + rest;
      WinnerIsLeast(rest);
      var w := Winner(rest);
      if w != first {
        KeyOrderTotal(w, first);
      }
      forall c | c in ready && c != Winner(ready) ensures KeyLess(Winner(ready), c) {
        if c != first && Winner(ready) == first && w != first && c != w {
          KeyOrderTransitive(first, w, c);
        }
      }
    }
  }

  lemma {:induction false} RemoveElement(pending: seq<Contender>, c: Contender)
    requires c in pending && DistinctIds(pending)
    ensures |Remove(pending, c)| == |pending| - 1
    ensures DistinctIds(Remove(pending, c))
    ensures forall d :: d in Remove(pending, c) <==> d in pending && d != c
  {
    assert pending == [pending[0]] + pending[1..];
    if pending[0] != c {
      RemoveElement(pending[1..], c);
      var rest := Remove(pending[1..], c);
      forall j | 0 <= j < |rest| ensures rest[j].contract.identifier != pending[0].contract.identifier {
        assert rest[j] in pending[1..];
      }
    }
  }

  lemma FreeInstantIsFirst(pending: seq<Contender>, clock: nat)
    requires pending != []
    ensures FirstFree(Elements(pending), clock, FreeInstant(pending, clock))
    ensures ReadyAt(pending, FreeInstant(pending, clock)) != []
  {
    var start := FreeInstant(pending, clock);
    EarliestReadyIsLeast(pending);
    var c :| c in pending && c.readyAt == EarliestReady(pending);
    ReadyAtElements(pending, clock);
    ReadyAtElements(pending, start);
    assert c in Elements(pending);
    if start == clock {
      assert ReadyAt(pending, clock) == [] || ReadyAt(pending, clock)[0] in pending;
    } else {
      assert clock < c.readyAt by { assert c !in ReadyAt(pending, clock); }
    }
    assert c in ReadyAt(pending, start);
  }

  function NextSlotOf(r: Rates, pending: seq<Contender>, clock: nat): Slot
    requires pending != []
  {
    FreeInstantIsFirst(pending, clock);
    var start := FreeInstant(pending, clock);
    var winner := Winner(ReadyAt(pending, start));
    Slot(winner, start, start + CostOf(r)(winner))
  }

  lemma NextSlotIsNext(r: Rates, pending: seq<Contender>, clock: nat)
    requires pending != [] && DistinctIds(pending)
    ensures var s := NextSlotOf(r, pending, clock);
            s.who in pending && Next(LeastKey, CostOf(r), Elements(pending), clock, s)
  {
    FreeInstantIsFirst(pending, clock);
    var start := FreeInstant(pending, clock);
    ReadyAtElements(pending, start);
    ElementsDistinct(pending);
    WinnerIsLeast(ReadyAt(pending, start));
  }

  /** The slots the scheduling loop fills, one per iteration. */
  function Schedule(r: Rates, pending: seq<Contender>, clock: nat): seq<Slot>
    requires DistinctIds(pending)
    decreases |pending|
  {
    if pending == [] then [] else
      var s := NextSlotOf(r, pending, clock);
      NextSlotIsNext(r, pending, clock);
      RemoveElement(pending, s.who);
      [s] + Schedule(r, Remove(pending, s.who), s.end)
  }

  /** The loop meets the declarative specification of arbitration. */
  lemma {:induction false} ScheduleIsChain(r: Rates, pending: seq<Contender>, clock: nat)
    requires DistinctIds(pending)
    ensures Chain(LeastKey, CostOf(r), Elements(pending), clock, Schedule(r, pending, clock))
    ensures |Schedule(r, pending, clock)| == |pending|
    decreases |pending|
  {
    if pending != [] {
      var s := NextSlotOf(r, pending, clock);
      NextSlotIsNext(r, pending, clock);
      RemoveElement(pending, s.who);
      var rest := Remove(pending, s.who);
      assert Elements(rest) == Elements(pending) - {s.who};
      ScheduleIsChain(r, rest, s.end);
      ConsIsChain(CostOf(r), Elements(pending), clock, s, Schedule(r, rest, s.end));
    }
  }

  lemma ConsIsChain(cost: CostModel, S: set<Contender>, clock: nat, s: Slot, rest: seq<Slot>)
    requires Next(LeastKey, cost, S, clock, s)
    requires Chain(LeastKey, cost, S - {s.who}, s.end, rest)
    ensures Chain(LeastKey, cost, S, clock, [s] + rest)
  {}

  lemma ElementsDistinct(cs: seq<Contender>)
    requires DistinctIds(cs)
    ensures DistinctContracts(Elements(cs))
  {}

  /**
   * The slots are the one correct schedule of the contenders: every contender served exactly once, no
   * overlap, nothing before it is ready, no idling while work is ready, and priority among the ready.
   */
  lemma ScheduleIsTheCorrectOne(r: Rates, cs: seq<Contender>, clock: nat, slots: seq<Slot>)
    requires DistinctIds(cs)
    ensures Correct(CostOf(r), Elements(cs), clock, slots) <==> slots == Schedule(r, cs, clock)
  {
    ScheduleIsChain(r, cs, clock);
    CorrectIffChain(CostOf(r), Elements(cs), clock, Schedule(r, cs, clock));
    if Correct(CostOf(r), Elements(cs), clock, slots) {
      ElementsDistinct(cs);
      CorrectIsUnique(CostOf(r), Elements(cs), clock, slots, Schedule(r, cs, clock));
    }
  }

  /** The order in which contenders are listed does not influence the outcome. */
  lemma ScheduleIgnoresInputOrder(r: Rates, a: seq<Contender>, b: seq<Contender>, clock: nat)
    requires DistinctIds(a) && DistinctIds(b)
    requires forall c :: c in a <==> c in b
    ensures Schedule(r, a, clock) == Schedule(r, b, clock)
  {
    assert Elements(a) == Elements(b);
    ScheduleIsTheCorrectOne(r, a, clock, Schedule(r, a, clock));
    ScheduleIsTheCorrectOne(r, b, clock, Schedule(r, a, clock));
  }

  // ---------- the reported frames ----------

  /** Every declared consumer receives the frame when its transmission ends. */
  function Deliveries(c: Contender, completedAt: nat): seq<Delivery> {
    var consumers := c.contract.consumers;
    seq(|consumers|, i requires 0 <= i < |consumers| => Delivery(consumers[i], completedAt, completedAt - c.readyAt))
  }

  /** The frame reported for the slot of 0-based position i. */
  function FrameOf(n: Net, s: Slot, i: nat): ArbitratedFrame {
    ArbitratedFrame(i + 1, n.nextSequence + i, s.who.contract, s.who.producer, FrameTiming(s.who.contract, n.rates),
                    s.who.readyAt, s.start, s.end, Deliveries(s.who, s.end))
  }

  function FramesOf(n: Net, slots: seq<Slot>): seq<ArbitratedFrame> {
    seq(|slots|, i requires 0 <= i < |slots| => FrameOf(n, slots[i], i))
  }

  ghost predicate RunForward(slots: seq<Slot>) {
    forall i :: 0 <= i < |slots| ==> slots[i].start <= slots[i].end
  }

  function Occupied(slots: seq<Slot>): nat
    requires RunForward(slots)
  {
    if slots == [] then 0 else
      var last := |slots| - 1;
      Occupied(slots[..last]) + (slots[last].end - slots[last].start)
  }

  function LatencyOf(f: ArbitratedFrame): int {
    f.completedAt - f.readyAt
  }

  /** `max(frame.completed_at_us - frame.ready_at_us for frame in frames)` */
  function MaximumLatency(frames: seq<ArbitratedFrame>): (m: int)
    requires frames != []
    ensures exists i :: 0 <= i < |frames| && LatencyOf(frames[i]) == m
    ensures forall i :: 0 <= i < |frames| ==> LatencyOf(frames[i]) <= m
  {
    var last := LatencyOf(frames[|frames| - 1]);
    if |frames| == 1 then last else
      var m := MaximumLatency(frames[..|frames| - 1]);
      assert forall i :: 0 <= i < |frames| - 1 ==> frames[i] == frames[..|frames| - 1][i];
      Max(m, last)
  }

  function UtilizationOf(n: Net, slots: seq<Slot>): Utilization
    requires slots != [] && RunForward(slots)
  {
    var end, occupied := EndOf(n.time, slots), Occupied(slots);
    Utilization(n.time, end, occupied, end - n.time - occupied, Round4(Percent(occupied, end - n.time)),
                MaximumLatency(FramesOf(n, slots)))
  }

  lemma FramesAppend(n: Net, slots: seq<Slot>, s: Slot)
    ensures FramesOf(n, slots + [s]) == FramesOf(n, slots) + [FrameOf(n, s, |slots|)]
    ensures |FramesOf(n, slots)| == |slots|
  {}

  lemma OccupiedAppend(slots: seq<Slot>, s: Slot)
    requires s.start <= s.end && RunForward(slots)
    ensures Occupied(slots + [s]) == Occupied(slots) + (s.end - s.start)
  {}

  lemma ScheduleUnfolds(r: Rates, pending: seq<Contender>, clock: nat)
    requires pending != [] && DistinctIds(pending)
    ensures var s := NextSlotOf(r, pending, clock);
            && s.who in pending && DistinctIds(Remove(pending, s.who)) && |Remove(pending, s.who)| < |pending|
            && s.start <= s.end
            && Schedule(r, pending, clock) == [s] + Schedule(r, Remove(pending, s.who), s.end)
  {
    NextSlotIsNext(r, pending, clock);
    RemoveElement(pending, NextSlotOf(r, pending, clock).who);
  }

  /** One turn of the arbitration loop: who gets the bus, and the frame that is reported for it. */
  method GrantBus(network: CanNetwork, pending: seq<Contender>, clock: nat, granted: nat)
    returns (winner: Contender, frame: ArbitratedFrame)
    requires pending != [] && DistinctIds(pending)
    ensures var slot := NextSlotOf(network.View().rates, pending, clock);
            winner == slot.who && frame == FrameOf(network.View(), slot, granted)
  {
    FreeInstantIsFirst(pending, clock);
    var started := clock;
    var ready := ReadyAt(pending, clock);
    if ready == [] {
      started := EarliestReady(pending);
      ready := ReadyAt(pending, started);
    }
    winner := Winner(ready);
    var timing := FrameTiming(winner.contract, network.rates);
    var completed := started + timing.Duration();
    frame := ArbitratedFrame(
      granted + 1, network.nextSequence + granted, winner.contract, winner.producer, timing,
      winner.readyAt, started, completed, Deliveries(winner, completed));
  }

  /** The loop has filled `slots`, and scheduling `pending` from `clock` on completes the batch. */
  ghost predicate Progress(n: Net, all: seq<Slot>, slots: seq<Slot>, pending: seq<Contender>, clock: nat,
                           occupied: nat, frames: seq<ArbitratedFrame>)
  {
    && DistinctIds(pending)
    && RunForward(slots)
    && slots + Schedule(n.rates, pending, clock) == all
    && clock == EndOf(n.time, slots)
    && occupied == Occupied(slots)
    && frames == FramesOf(n, slots)
  }

  lemma SlotsRegroup(slots: seq<Slot>, s: Slot, rest: seq<Slot>)
    ensures slots + ([s] + rest) == (slots + [s]) + rest
    ensures RunForward(slots) && s.start <= s.end ==> RunForward(slots + [s])
    ensures forall clock :: EndOf(clock, slots + [s]) == s.end
  {}

  lemma ProgressStep(n: Net, all: seq<Slot>, slots: seq<Slot>, pending: seq<Contender>, clock: nat,
                     occupied: nat, frames: seq<ArbitratedFrame>)
    requires Progress(n, all, slots, pending, clock, occupied, frames) && pending != []
    ensures var s := NextSlotOf(n.rates, pending, clock);
            && |Remove(pending, s.who)| < |pending|
            && s.start <= s.end
            && DistinctIds(pending) && |frames| == |slots|
            && Progress(n, all, slots + [s], Remove(pending, s.who), s.end, occupied + (s.end - s.start),
                        frames + [FrameOf(n, s, |slots|)])
  {
    hide NextSlotOf;
    hide FrameOf;
    hide FramesOf;
    var s := NextSlotOf(n.rates, pending, clock);
    ScheduleUnfolds(n.rates, pending, clock);
    FramesAppend(n, slots, s);
    OccupiedAppend(slots, s);
    SlotsRegroup(slots, s, Schedule(n.rates, Remove(pending, s.who), s.end));
  }

  lemma ProgressStart(n: Net, contenders: seq<Contender>)
    requires contenders != [] && DistinctIds(contenders)
    ensures Schedule(n.rates, contenders, n.time) != []
    ensures Progress(n, Schedule(n.rates, contenders, n.time), [], contenders, n.time, 0, [])
  {
    ScheduleUnfolds(n.rates, contenders, n.time);
  }

  lemma ProgressDone(n: Net, all: seq<Slot>, slots: seq<Slot>, clock: nat, occupied: nat, frames: seq<ArbitratedFrame>)
    requires all != [] && Progress(n, all, slots, [], clock, occupied, frames)
    ensures slots == all && RunForward(all) && frames == FramesOf(n, all) && frames != []
    ensures UtilizationOf(n, all) ==
            Utilization(n.time, clock, occupied, clock - n.time - occupied, Round4(Percent(occupied, clock - n.time)),
                        MaximumLatency(frames))
  {
    hide Round4;
    hide Percent;
    hide MaximumLatency;
  }

  method Arbitrate(network: CanNetwork, contenders: seq<Contender>)
    returns (frames: seq<ArbitratedFrame>, utilization: Utilization)
    requires contenders != [] && DistinctIds(contenders)
    ensures var n := network.View();
            var slots := Schedule(n.rates, contenders, n.time);
            && slots != [] && RunForward(slots)
            && frames == FramesOf(n, slots)
            && utilization == UtilizationOf(n, slots)
  {
    hide Round4;
    hide Percent;
    hide MaximumLatency;
    hide Progress;
    hide Schedule;
    hide NextSlotOf;
    hide UtilizationOf;
    hide FramesOf;
    hide RunForward;
    hide DistinctIds;
    var pending := contenders;
    var clock: nat, occupied: nat := network.simulationTime, 0;
    frames := [];
    ghost var n := network.View();
    ghost var slots: seq<Slot> := [];
    ghost var all := Schedule(n.rates, contenders, n.time);
    ProgressStart(n, contenders);
    while pending != []
      invariant Progress(n, all, slots, pending, clock, occupied, frames)
      decreases |pending|
    {
      ProgressStep(n, all, slots, pending, clock, occupied, frames);
      ghost var slot := NextSlotOf(n.rates, pending, clock);
      var winner, frame := GrantBus(network, pending, clock, |frames|);
      pending := Remove(pending, winner);
      clock := frame.completedAt;
      occupied := occupied + (frame.completedAt - frame.startedAt);
      frames := frames + [frame];
      slots := slots + [slot];
    }
    ProgressDone(n, all, slots, clock, occupied, frames);
    var window := clock - network.simulationTime;
    utilization := Utilization(network.simulationTime, clock, occupied, window - occupied,
                               Round4(Percent(occupied, window)), MaximumLatency(frames));
  }
}

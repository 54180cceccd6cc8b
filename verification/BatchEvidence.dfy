/**
 * What an accepted arbitration records, told by its requests and the network before it: whose frame is whose,
 * when each one runs, and what is delivered and stored.
 */
module BatchEvidence {
  import opened Basics
  import opened Schemas
  import opened CanTiming
  import opened Store
  import opened Scheduling
  import opened Arbitration
  import opened ArbitrationService
  import opened BatchTheorems
  import opened NetworkRuns

  // ---------- requests ----------

  /** The request may contend: its contract exists, the producer is the declared one and on the bus, the length fits. */
  ghost predicate MayContend(n: Net, r: ContenderRequest, contract: FrameContract) {
    && FindContract(n.contracts, r.contractId) == Some(contract)
    && r.producer == contract.producer
    && (r.producer in n.errorStates ==> n.errorStates[r.producer].tec < 256)
    && |r.payload| == contract.dlc
  }

  /** A request resolves to x exactly when it may contend, and x is ready the requested offset after now. */
  lemma ResolveExactly(n: Net, r: ContenderRequest, x: Contender)
    ensures Resolve(n, r) == Ok(x) <==>
            && MayContend(n, r, x.contract)
            && x.producer == r.producer && x.payload == r.payload && x.readyAt == n.time + r.readyOffset
    ensures Resolve(n, r).Ok? <==> exists contract :: MayContend(n, r, contract)
  {
    if Resolve(n, r).Ok? {
      assert MayContend(n, r, Resolve(n, r).value.contract);
    }
  }

  /** Which request fails a batch, and why: the first that may not contend. */
  ghost predicate Refuses(n: Net, r: ContenderRequest, e: Error) {
    match FindContract(n.contracts, r.contractId)
    case None => e == UnknownContract
    case Some(contract) =>
      if r.producer != contract.producer then e == ForeignProducer
      else if r.producer in n.errorStates && n.errorStates[r.producer].tec >= 256 then e == NodeBusOff
      else |r.payload| != contract.dlc && e == WrongPayloadLength
  }

  lemma {:induction false} FirstRefused(n: Net, cs: seq<ContenderRequest>, k: nat)
    requires k <= |cs| && ResolveUpTo(n, cs, k).Err?
    ensures exists i :: 0 <= i < k && Refuses(n, cs[i], ResolveUpTo(n, cs, k).error)
              && forall j :: 0 <= j < i ==> Resolve(n, cs[j]).Ok?
  {
    hide Resolve;
    hide Refuses;
    if ResolveUpTo(n, cs, k - 1).Err? {
      FirstRefused(n, cs, k - 1);
    } else {
      ResolvedContenders(n, cs, k - 1);
      RefusalExactly(n, cs[k - 1]);
    }
  }

  lemma RefusalExactly(n: Net, r: ContenderRequest)
    ensures Resolve(n, r).Err? ==> Refuses(n, r, Resolve(n, r).error)
  {}

  /** Some contract lets the request contend. */
  ghost predicate Contends(n: Net, r: ContenderRequest) {
    exists contract :: MayContend(n, r, contract)
  }

  /**
   * A batch is accepted exactly when its id is free, its version current, each of its requests may contend, and no
   * submission took one of the ids its frames get. A request that may not contend refuses it, the first one's way.
   */
  lemma BatchAcceptsExactly(l: Ledger, c: ArbitrationCommand)
    requires c.Valid() && AllOwned(l.rows)
    ensures ExecuteArbitration(l, c).outcome.Done? <==>
            && Find(l.rows, Arbitrations, c.commandId).None?
            && c.expectedVersion == l.net.version
            && (forall i :: 0 <= i < |c.contenders| ==> Contends(l.net, c.contenders[i]))
            && !Squatted(l.rows, c.commandId, |c.contenders|)
    ensures Find(l.rows, Arbitrations, c.commandId).None? && c.expectedVersion == l.net.version
            && (exists i :: 0 <= i < |c.contenders| && !Contends(l.net, c.contenders[i])) ==>
              && ExecuteArbitration(l, c).outcome.Rejected? && ExecuteArbitration(l, c).ledger == l
              && exists i :: 0 <= i < |c.contenders|
                   && Refuses(l.net, c.contenders[i], ExecuteArbitration(l, c).outcome.error)
                   && forall j :: 0 <= j < i ==> Contends(l.net, c.contenders[j])
  {
    hide Squatted;
    hide AllOwned;
    hide Find;
    hide BatchSlots;
    hide Complete;
    hide MayContend;
    hide Refuses;
    forall i | 0 <= i < |c.contenders|
      ensures Resolve(l.net, c.contenders[i]).Ok? <==> Contends(l.net, c.contenders[i])
    {
      ResolvesIff(l.net, c.contenders[i]);
    }
    hide Contends;
    hide Resolve;
    ResolvedContenders(l.net, c.contenders, |c.contenders|);
    if ResolveUpTo(l.net, c.contenders, |c.contenders|).Err? {
      FirstRefused(l.net, c.contenders, |c.contenders|);
    } else if Find(l.rows, Arbitrations, c.commandId).None? && c.expectedVersion == l.net.version {
      CollidesOnlyWithSubmissions(l, c);
    }
    hide ResolveUpTo;
  }

  lemma ResolvesIff(n: Net, r: ContenderRequest)
    ensures Resolve(n, r).Ok? <==> Contends(n, r)
  {
    if Resolve(n, r).Ok? {
      ResolveExactly(n, r, Resolve(n, r).value);
    }
    if contract :| MayContend(n, r, contract) {
      ResolveExactly(n, r, Contender(contract, r.producer, r.payload, n.time + r.readyOffset));
    }
  }

  // ---------- whose frame is whose ----------

  /** The frame is the requested one: of the request's contract and producer, ready the requested offset after now. */
  ghost predicate Answers(n: Net, r: ContenderRequest, f: ArbitratedFrame) {
    && FindContract(n.contracts, r.contractId) == Some(f.contract)
    && f.contract.identifier == r.contractId
    && f.producer == r.producer
    && f.readyAt == n.time + r.readyOffset
  }

  /** The stored transmission of the frame carries what the request asked to send. */
  ghost predicate Stores(n: Net, c: ArbitrationCommand, r: ContenderRequest, f: ArbitratedFrame, row: Row) {
    && row.TransmissionRow?
    && row.commandId == "arb:" + c.commandId + ":" + Decimal(f.rank)
    && row.contractId == r.contractId && row.producer == r.producer && row.payload == r.payload
    && row.frameId == f.contract.frameId && row.format == f.contract.format
    && row.protocol == f.contract.protocol && row.bitrateSwitch == f.contract.bitrateSwitch
    && row.request == Arbitrated(c.commandId, n.time + r.readyOffset)
    && row.sequence == f.sequence && row.time == f.completedAt
    && row.previousVersion == n.version && row.networkVersion == n.version + 1
  }

  /** Slot k of the batch serves the request i. */
  ghost predicate Serves(n: Net, c: ArbitrationCommand, slots: seq<Slot>, k: nat, i: nat)
    requires k < |slots| && i < |c.contenders|
  {
    Resolve(n, c.contenders[i]) == Ok(slots[k].who)
  }

  lemma SlotServes(n: Net, c: ArbitrationCommand, slots: seq<Slot>, k: nat)
    requires c.Valid() && ResolveUpTo(n, c.contenders, |c.contenders|).Ok?
    requires slots == BatchSlots(n, c) && k < |slots|
    ensures exists i: nat :: i < |c.contenders| && Serves(n, c, slots, k, i)
  {
    hide BatchSlots;
    hide Resolve;
    hide NeverIdleWithWork;
    hide ByPriority;
    BatchCorrect(n, c);
    ResolvedContenders(n, c.contenders, |c.contenders|);
    hide ResolveUpTo;
    var cs := ResolveUpTo(n, c.contenders, |c.contenders|).value;
    assert slots[k].who in ContendersOf(n, c);
    var i :| 0 <= i < |cs| && cs[i] == slots[k].who;
    assert Serves(n, c, slots, k, i);
  }

  lemma RequestServed(n: Net, c: ArbitrationCommand, slots: seq<Slot>, i: nat)
    requires c.Valid() && ResolveUpTo(n, c.contenders, |c.contenders|).Ok?
    requires slots == BatchSlots(n, c) && i < |c.contenders|
    ensures exists k: nat :: k < |slots| && Serves(n, c, slots, k, i)
  {
    hide BatchSlots;
    hide Resolve;
    hide NeverIdleWithWork;
    hide ByPriority;
    BatchCorrect(n, c);
    ResolvedContenders(n, c.contenders, |c.contenders|);
    hide ResolveUpTo;
    var cs := ResolveUpTo(n, c.contenders, |c.contenders|).value;
    assert cs[i] in ContendersOf(n, c);
    var k :| 0 <= k < |slots| && slots[k].who == cs[i];
    assert Serves(n, c, slots, k, i);
  }

  lemma ServedAnswers(n: Net, c: ArbitrationCommand, slots: seq<Slot>, k: nat, i: nat)
    requires k < |slots| && i < |c.contenders| && Serves(n, c, slots, k, i)
    ensures Answers(n, c.contenders[i], FrameOf(n, slots[k], k))
    ensures Stores(n, c, c.contenders[i], FrameOf(n, slots[k], k),
                   TransmissionOf(n, c, FrameOf(n, slots[k], k), slots[k].who))
  {
    ResolveExactly(n, c.contenders[i], slots[k].who);
    hide Resolve;
    hide Decimal;
    hide FrameTiming;
    hide Deliveries;
    AppendsRegroup("arb:", c.commandId, ":", Decimal(k + 1));
  }

  lemma AppendsRegroup(a: string, b: string, c: string, d: string)
    ensures a + b + c + d == a + (b + (c + d))
  {}

  /** The rows of an accepted batch after its own. */
  function Transmitted(l: Ledger, c: ArbitrationCommand): seq<Row>
    requires c.Valid() && |ExecuteArbitration(l, c).ledger.rows| > |l.rows|
  {
    ExecuteArbitration(l, c).ledger.rows[|l.rows| + 1..]
  }

  lemma BatchRecorded(l: Ledger, c: ArbitrationCommand)
    requires c.Valid() && ExecuteArbitration(l, c).outcome.Done?
    ensures ResolveUpTo(l.net, c.contenders, |c.contenders|).Ok?
    ensures var a, slots := ExecuteArbitration(l, c), BatchSlots(l.net, c);
            && |slots| == |c.contenders|
            && a.outcome.row.ArbitrationRow? && a.outcome.row.frames == FramesOf(l.net, slots)
            && |a.ledger.rows| > |l.rows| && a.ledger.rows[..|l.rows|] == l.rows
            && a.ledger.rows[|l.rows|] == a.outcome.row
            && Transmitted(l, c) == TransmissionsOf(l.net, c, slots)
            && a.ledger.net == l.net.(version := l.net.version + 1, nextSequence := l.net.nextSequence + |slots|,
                                      time := EndOf(l.net.time, slots))
  {
    hide BatchSlots;
    hide FramesOf;
    hide Complete;
    hide TransmissionsOf;
    BatchCompleted(l, c);
    BatchCorrect(l.net, c);
    hide ExecuteArbitration;
    hide Correct;
    hide Chain;
    hide ResolveUpTo;
    CompletedRecords(l, c, BatchSlots(l.net, c));
  }

  lemma BatchCompleted(l: Ledger, c: ArbitrationCommand)
    requires c.Valid() && ExecuteArbitration(l, c).outcome.Done?
    ensures ResolveUpTo(l.net, c.contenders, |c.contenders|).Ok?
    ensures ExecuteArbitration(l, c) == Complete(l, c, BatchSlots(l.net, c))
  {
    hide BatchSlots;
    hide Complete;
    hide ResolveUpTo;
    hide Find;
  }

  lemma CompletedRecords(l: Ledger, c: ArbitrationCommand, slots: seq<Slot>)
    requires slots != [] && RunForward(slots) && Complete(l, c, slots).outcome.Done?
    ensures var a, added := Complete(l, c, slots), TransmissionsOf(l.net, c, slots);
            && a.outcome.row.ArbitrationRow? && a.outcome.row.frames == FramesOf(l.net, slots)
            && a.outcome.row.utilization == UtilizationOf(l.net, slots)
            && a.ledger.rows == l.rows + ([a.outcome.row] + added)
            && a.ledger.rows[..|l.rows|] == l.rows && a.ledger.rows[|l.rows|] == a.outcome.row
            && a.ledger.rows[|l.rows| + 1..] == added
            && a.ledger.net == l.net.(version := l.net.version + 1, nextSequence := l.net.nextSequence + |slots|,
                                      time := EndOf(l.net.time, slots))
  {
    hide FramesOf;
    hide UtilizationOf;
    hide AnyRecorded;
    hide TransmissionsOf;
    hide EndOf;
    RowsAfter(l.rows, Complete(l, c, slots).outcome.row, TransmissionsOf(l.net, c, slots));
  }

  /** The frame answers some request, and the row stores what that request asked to send. */
  ghost predicate Requested(n: Net, c: ArbitrationCommand, f: ArbitratedFrame, row: Row) {
    exists i :: 0 <= i < |c.contenders| && Answers(n, c.contenders[i], f) && Stores(n, c, c.contenders[i], f, row)
  }

  ghost predicate Answered(n: Net, r: ContenderRequest, frames: seq<ArbitratedFrame>) {
    exists k :: 0 <= k < |frames| && Answers(n, r, frames[k])
  }

  /**
   * Every reported frame answers exactly one request and every request is answered by exactly one frame; its stored
   * transmission carries that request's payload.
   */
  lemma FramesAnswerRequests(l: Ledger, c: ArbitrationCommand)
    requires c.Valid() && ExecuteArbitration(l, c).outcome.Done?
    ensures var row := ExecuteArbitration(l, c).outcome.row;
            && row.ArbitrationRow?
            && |ExecuteArbitration(l, c).ledger.rows| > |l.rows|
            && |row.frames| == |c.contenders| == |Transmitted(l, c)|
            && (forall k :: 0 <= k < |row.frames| ==> Requested(l.net, c, row.frames[k], Transmitted(l, c)[k]))
            && (forall i :: 0 <= i < |c.contenders| ==> Answered(l.net, c.contenders[i], row.frames))
            && (forall k, i, j :: 0 <= k < |row.frames| && 0 <= i < j < |c.contenders| ==>
                  !(Answers(l.net, c.contenders[i], row.frames[k]) && Answers(l.net, c.contenders[j], row.frames[k])))
  {
    hide *;
    BatchRecorded(l, c);
    var n, slots := l.net, BatchSlots(l.net, c);
    var frames, added := FramesOf(n, slots), TransmissionsOf(n, c, slots);
    FramesAt(n, c, slots);
    forall k | 0 <= k < |slots| ensures Requested(n, c, frames[k], added[k]) {
      FrameRequested(n, c, slots, k);
    }
    forall i | 0 <= i < |c.contenders| ensures Answered(n, c.contenders[i], frames) {
      RequestAnswered(n, c, slots, i);
    }
    forall k, i, j | 0 <= k < |frames| && 0 <= i < j < |c.contenders|
      ensures !(Answers(n, c.contenders[i], frames[k]) && Answers(n, c.contenders[j], frames[k]))
    {
      OneAnswer(n, c, frames[k], i, j);
    }
  }

  lemma FrameRequested(n: Net, c: ArbitrationCommand, slots: seq<Slot>, k: nat)
    requires c.Valid() && ResolveUpTo(n, c.contenders, |c.contenders|).Ok?
    requires slots == BatchSlots(n, c) && k < |slots|
    ensures var f := FrameOf(n, slots[k], k);
            Requested(n, c, f, TransmissionOf(n, c, f, slots[k].who))
  {
    hide ResolveUpTo;
    hide BatchSlots;
    hide Serves;
    hide FrameOf;
    hide TransmissionOf;
    hide Answers;
    hide Stores;
    SlotServes(n, c, slots, k);
    var i: nat :| i < |c.contenders| && Serves(n, c, slots, k, i);
    ServedAnswers(n, c, slots, k, i);
  }

  lemma RequestAnswered(n: Net, c: ArbitrationCommand, slots: seq<Slot>, i: nat)
    requires c.Valid() && ResolveUpTo(n, c.contenders, |c.contenders|).Ok?
    requires slots == BatchSlots(n, c) && i < |c.contenders|
    ensures Answered(n, c.contenders[i], FramesOf(n, slots))
  {
    hide ResolveUpTo;
    hide BatchSlots;
    hide Serves;
    hide FrameOf;
    hide FramesOf;
    hide TransmissionOf;
    hide Answers;
    hide Stores;
    RequestServed(n, c, slots, i);
    var k: nat :| k < |slots| && Serves(n, c, slots, k, i);
    ServedAnswers(n, c, slots, k, i);
    FramesAt(n, c, slots);
  }

  lemma FramesAt(n: Net, c: ArbitrationCommand, slots: seq<Slot>)
    ensures |FramesOf(n, slots)| == |slots| == |TransmissionsOf(n, c, slots)|
    ensures forall k :: 0 <= k < |slots| ==>
              && FramesOf(n, slots)[k] == FrameOf(n, slots[k], k)
              && TransmissionsOf(n, c, slots)[k] == TransmissionOf(n, c, FrameOf(n, slots[k], k), slots[k].who)
  {
    hide FrameOf;
    hide TransmissionOf;
  }

  lemma OneAnswer(n: Net, c: ArbitrationCommand, f: ArbitratedFrame, i: nat, j: nat)
    requires c.Valid() && i < j < |c.contenders|
    ensures !(Answers(n, c.contenders[i], f) && Answers(n, c.contenders[j], f))
  {}

  // ---------- when each frame runs ----------

  /** The contract wins over the other: by numeric identifier, then the standard format, then the name. */
  predicate Beats(x: FrameContract, y: FrameContract) {
    || x.frameId < y.frameId
    || (x.frameId == y.frameId && x.format == Standard && y.format == Extended)
    || (x.frameId == y.frameId && x.format == y.format && StringLess(x.identifier, y.identifier))
  }

  /** Frame k: numbered in order, sent for its duration when it was ready, and delivered to all consumers at its end. */
  ghost predicate FrameFits(n: Net, f: ArbitratedFrame, k: nat) {
    && f.rank == k + 1 && f.sequence == n.nextSequence + k
    && f.readyAt <= f.startedAt && n.time <= f.startedAt
    && Timed(f.contract, n.rates, f.timing)
    && f.completedAt == f.startedAt + f.timing.nominalPhase + f.timing.dataPhase
    && |f.deliveries| == |f.contract.consumers|
    && forall j :: 0 <= j < |f.deliveries| ==>
         f.deliveries[j] == Delivery(f.contract.consumers[j], f.completedAt, f.completedAt - f.readyAt)
  }

  /** The frames run one at a time. */
  ghost predicate OneAtATime(frames: seq<ArbitratedFrame>) {
    forall i, j :: 0 <= i < j < |frames| ==> frames[i].completedAt <= frames[j].startedAt
  }

  /** A frame starts when the bus gets free, or else when nothing that is still waiting was ready before. */
  ghost predicate NeverWaits(now: nat, frames: seq<ArbitratedFrame>) {
    forall i, j :: 0 <= i <= j < |frames| ==>
      || frames[i].startedAt == (if i == 0 then now else frames[i - 1].completedAt)
      || frames[i].startedAt <= frames[j].readyAt
  }

  /** Among the frames that are ready when one starts, the one that wins over all others starts. */
  ghost predicate DecidedByKey(frames: seq<ArbitratedFrame>) {
    forall i, j :: 0 <= i < j < |frames| && frames[j].readyAt <= frames[i].startedAt ==>
      Beats(frames[i].contract, frames[j].contract)
  }

  lemma SlotFits(n: Net, c: ArbitrationCommand, S: set<Contender>, slots: seq<Slot>, k: nat)
    requires Feasible(CostOf(n.rates), S, n.time, slots) && k < |slots|
    ensures FrameFits(n, FrameOf(n, slots[k], k), k)
  {
    FrameTimingExactly(slots[k].who.contract, n.rates, FrameTiming(slots[k].who.contract, n.rates));
    hide FrameTiming;
    hide Timed;
  }

  /** The frames report the slots' contenders and times. */
  ghost predicate Report(frames: seq<ArbitratedFrame>, slots: seq<Slot>) {
    && |frames| == |slots|
    && forall k :: 0 <= k < |slots| ==> ReportsSlot(frames[k], slots[k])
  }

  predicate ReportsSlot(f: ArbitratedFrame, s: Slot) {
    && f.contract == s.who.contract && f.readyAt == s.who.readyAt
    && f.startedAt == s.start && f.completedAt == s.end
  }

  lemma FramesReport(n: Net, slots: seq<Slot>)
    ensures Report(FramesOf(n, slots), slots)
  {
    hide FrameTiming;
    hide Deliveries;
  }

  lemma RunsOneAtATime(frames: seq<ArbitratedFrame>, slots: seq<Slot>, cost: CostModel, S: set<Contender>, clock: nat)
    requires Report(frames, slots) && Feasible(cost, S, clock, slots)
    ensures OneAtATime(frames)
  {
    forall i, j | 0 <= i < j < |frames| ensures frames[i].completedAt <= frames[j].startedAt {
      assert ReportsSlot(frames[i], slots[i]) && ReportsSlot(frames[j], slots[j]);
    }
  }

  lemma RunsWithoutWaiting(frames: seq<ArbitratedFrame>, slots: seq<Slot>, clock: nat)
    requires Report(frames, slots) && NeverIdleWithWork(clock, slots)
    ensures NeverWaits(clock, frames)
  {
    forall i, j | 0 <= i <= j < |frames|
      ensures frames[i].startedAt == (if i == 0 then clock else frames[i - 1].completedAt)
              || frames[i].startedAt <= frames[j].readyAt
    {
      assert ReportsSlot(frames[i], slots[i]) && ReportsSlot(frames[j], slots[j]);
      assert i > 0 ==> ReportsSlot(frames[i - 1], slots[i - 1]);
      assert slots[i].start == FreeSince(clock, slots, i) || slots[i].start <= slots[j].who.readyAt;
    }
  }

  lemma RunsByKey(frames: seq<ArbitratedFrame>, slots: seq<Slot>)
    requires Report(frames, slots) && ByPriority(slots)
    ensures DecidedByKey(frames)
  {
    forall i, j | 0 <= i < j < |frames| && frames[j].readyAt <= frames[i].startedAt
      ensures Beats(frames[i].contract, frames[j].contract)
    {
      assert ReportsSlot(frames[i], slots[i]) && ReportsSlot(frames[j], slots[j]);
      assert KeyLess(slots[i].who, slots[j].who);
    }
  }

  lemma SlotsRun(n: Net, S: set<Contender>, slots: seq<Slot>)
    requires Correct(CostOf(n.rates), S, n.time, slots)
    ensures OneAtATime(FramesOf(n, slots)) && NeverWaits(n.time, FramesOf(n, slots)) && DecidedByKey(FramesOf(n, slots))
  {
    hide FramesOf;
    hide Report;
    hide Feasible;
    hide NeverIdleWithWork;
    hide ByPriority;
    hide OneAtATime;
    hide NeverWaits;
    hide DecidedByKey;
    FramesReport(n, slots);
    RunsOneAtATime(FramesOf(n, slots), slots, CostOf(n.rates), S, n.time);
    RunsWithoutWaiting(FramesOf(n, slots), slots, n.time);
    RunsByKey(FramesOf(n, slots), slots);
  }

  /**
   * The reported frames are the run of the bus that the rules prescribe: each takes its frame time, none overlaps,
   * none starts before it is ready, the bus does not idle while one waits, and arbitration decides among those that
   * are ready. The window spans them, and its latency is that of the slowest.
   */
  lemma FramesFollowRules(l: Ledger, c: ArbitrationCommand)
    requires c.Valid() && ExecuteArbitration(l, c).outcome.Done?
    ensures var row, after := ExecuteArbitration(l, c).outcome.row, ExecuteArbitration(l, c).ledger.net;
            && row.ArbitrationRow? && row.frames != []
            && (forall k :: 0 <= k < |row.frames| ==> FrameFits(l.net, row.frames[k], k))
            && OneAtATime(row.frames) && NeverWaits(l.net.time, row.frames) && DecidedByKey(row.frames)
            && row.utilization.windowStart == l.net.time
            && row.utilization.windowEnd == row.frames[|row.frames| - 1].completedAt == after.time
            && after.nextSequence == l.net.nextSequence + |row.frames|
            && (forall k :: 0 <= k < |row.frames| ==>
                  row.frames[k].completedAt - row.frames[k].readyAt <= row.utilization.maximumLatency)
            && (exists k :: 0 <= k < |row.frames|
                  && row.frames[k].completedAt - row.frames[k].readyAt == row.utilization.maximumLatency)
  {
    hide *;
    BatchCompleted(l, c);
    BatchCorrect(l.net, c);
    var n, S, slots := l.net, ContendersOf(l.net, c), BatchSlots(l.net, c);
    CompletedRecords(l, c, slots);
    FramesAt(n, c, slots);
    SlotsRun(n, S, slots);
    forall k | 0 <= k < |slots| ensures FrameFits(n, FramesOf(n, slots)[k], k) {
      CorrectFeasible(CostOf(n.rates), S, n.time, slots);
      SlotFits(n, c, S, slots, k);
    }
    WindowOfSlots(n, slots);
  }

  lemma CorrectFeasible(cost: CostModel, S: set<Contender>, clock: nat, slots: seq<Slot>)
    requires Correct(cost, S, clock, slots)
    ensures Feasible(cost, S, clock, slots)
  {}

  lemma WindowOfSlots(n: Net, slots: seq<Slot>)
    requires slots != [] && RunForward(slots)
    ensures var frames, u := FramesOf(n, slots), UtilizationOf(n, slots);
            && frames != [] && u.windowStart == n.time
            && u.windowEnd == EndOf(n.time, slots) == frames[|frames| - 1].completedAt
            && (forall k :: 0 <= k < |frames| ==> frames[k].completedAt - frames[k].readyAt <= u.maximumLatency)
            && (exists k :: 0 <= k < |frames| && frames[k].completedAt - frames[k].readyAt == u.maximumLatency)
  {
    hide MaximumLatency;
    hide FrameTiming;
    hide Deliveries;
    hide Occupied;
    hide Rounding.Round4;
  }

  // ---------- numerals ----------

  /** The number a string of decimal digits stands for. */
  function Numeral(s: string): int {
    if s == [] then 0 else 10 * Numeral(s[..|s| - 1]) + (s[|s| - 1] as int - '0' as int)
  }

  lemma DigitValue(d: nat)
    requires d < 10
    ensures ArbitrationService.Digit(d) as int == '0' as int + d
  {}

  /** The rank in a transmission id is written as its decimal numeral, without leading zeros. */
  lemma {:induction false} DecimalExactly(n: nat)
    ensures Numeral(Decimal(n)) == n && Decimal(n) != []
    ensures forall i :: 0 <= i < |Decimal(n)| ==> '0' <= Decimal(n)[i] <= '9'
    ensures Decimal(n)[0] == '0' <==> n == 0
  {
    DigitValue(n % 10);
    if n >= 10 {
      DecimalExactly(n / 10);
      var s := Decimal(n);
      assert s[..|s| - 1] == Decimal(n / 10);
    } else {
      assert Decimal(n)[..0] == [];
    }
  }
}

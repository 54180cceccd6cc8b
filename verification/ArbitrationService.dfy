/** Executing an arbitration command: one versioned step that records the batch and every frame in it. */
module ArbitrationService {
  import opened Basics
  import opened Schemas
  import opened CanTiming
  import opened Store
  import opened Scheduling
  import opened Arbitration

  // ---------- transmission ids ----------

  function Digit(d: nat): char
    requires d < 10
  {
    "0123456789"[d]
  }

  function Decimal(n: nat): string {
    if n < 10 then [Digit(n)] else Decimal(n / 10) + [Digit(n % 10)]
  }

  /** `f"arb:{command_id}:{rank}"` */
  function TransmissionId(commandId: string, rank: nat): string {
    "arb:" + commandId + ":" + Decimal(rank)
  }

  lemma DigitInjective(a: nat, b: nat)
    requires a < 10 && b < 10
    ensures Digit(a) == Digit(b) ==> a == b
    ensures Digit(a) != ':'
  {}

  lemma {:induction false} DecimalHasNoColon(n: nat)
    ensures ':' !in Decimal(n)
    ensures |Decimal(n)| > 0
  {
    DigitInjective(n % 10, 0);
    if n >= 10 {
      DecimalHasNoColon(n / 10);
    }
  }

  lemma {:induction false} DecimalInjective(m: nat, n: nat)
    requires Decimal(m) == Decimal(n)
    ensures m == n
  {
    DecimalHasNoColon(m / 10);
    DecimalHasNoColon(n / 10);
    var s := Decimal(m);
    DigitInjective(m % 10, n % 10);
    if m >= 10 && n >= 10 {
      assert s[..|s| - 1] == Decimal(m / 10) == Decimal(n / 10);
      DecimalInjective(m / 10, n / 10);
    }
  }

  lemma LastColon(a: string, x: string, b: string, y: string)
    requires "arb:" + a + ":" + x == "arb:" + b + ":" + y
    requires ':' !in y
    ensures |y| <= |x|
  {
    var s := "arb:" + a + ":" + x;
    var p := |s| - |x| - 1;
    assert s[p] == ':';
    forall q | |s| - |y| <= q < |s| ensures s[q] in y {
      assert s[q] == y[q - (|s| - |y|)];
    }
  }

  /** The last colon separates the command id from the rank, so no two frames ever share an id. */
  lemma TransmissionIdInjective(a: string, i: nat, b: string, j: nat)
    requires TransmissionId(a, i) == TransmissionId(b, j)
    ensures a == b && i == j
  {
    var s, x, y := TransmissionId(a, i), Decimal(i), Decimal(j);
    DecimalHasNoColon(i);
    DecimalHasNoColon(j);
    LastColon(a, x, b, y);
    LastColon(b, y, a, x);
    assert x == s[|s| - |x|..] == y;
    DecimalInjective(i, j);
    assert a == s[4..|s| - |x| - 1] == b;
  }

  // ---------- pairing every frame with its contender ----------

  /** The rank of the first frame of the contender's contract; 0 if there is none. */
  function FrameOrder(frames: seq<ArbitratedFrame>, c: Contender): nat {
    if frames == [] then 0
    else if frames[0].contract.identifier == c.contract.identifier then frames[0].rank
    else FrameOrder(frames[1..], c)
  }

  /** One step of a stable sort by frame order. */
  function Insert(frames: seq<ArbitratedFrame>, c: Contender, sorted: seq<Contender>): seq<Contender> {
    if sorted == [] || FrameOrder(frames, c) <= FrameOrder(frames, sorted[0]) then [c] + sorted
    else [sorted[0]] + Insert(frames, c, sorted[1..])
  }

  /** `sorted(contenders, key=lambda item: frame_order(frames, item))` */
  function SortByFrame(frames: seq<ArbitratedFrame>, cs: seq<Contender>): seq<Contender> {
    if cs == [] then [] else Insert(frames, cs[0], SortByFrame(frames, cs[1..]))
  }

  ghost predicate InFrameOrder(frames: seq<ArbitratedFrame>, cs: seq<Contender>) {
    forall i, j :: 0 <= i < j < |cs| ==> FrameOrder(frames, cs[i]) <= FrameOrder(frames, cs[j])
  }

  lemma {:induction false} InsertSorts(frames: seq<ArbitratedFrame>, c: Contender, sorted: seq<Contender>)
    requires InFrameOrder(frames, sorted)
    ensures InFrameOrder(frames, Insert(frames, c, sorted))
    ensures |Insert(frames, c, sorted)| == |sorted| + 1
    ensures forall d :: d in Insert(frames, c, sorted) <==> d == c || d in sorted
  {
    if sorted != [] {
      assert sorted == [sorted[0]] + sorted[1..];
      if FrameOrder(frames, c) > FrameOrder(frames, sorted[0]) {
        InsertSorts(frames, c, sorted[1..]);
        var rest := Insert(frames, c, sorted[1..]);
        forall j | 0 <= j < |rest| ensures FrameOrder(frames, sorted[0]) <= FrameOrder(frames, rest[j]) {
          assert rest[j] in rest;
        }
      }
    }
  }

  lemma {:induction false} SortByFrameSorts(frames: seq<ArbitratedFrame>, cs: seq<Contender>)
    ensures InFrameOrder(frames, SortByFrame(frames, cs))
    ensures |SortByFrame(frames, cs)| == |cs|
    ensures forall d :: d in SortByFrame(frames, cs) <==> d in cs
  {
    if cs != [] {
      SortByFrameSorts(frames, cs[1..]);
      InsertSorts(frames, cs[0], SortByFrame(frames, cs[1..]));
      assert cs == [cs[0]] + cs[1..];
    }
  }

  function Winners(slots: seq<Slot>): seq<Contender> {
    seq(|slots|, i requires 0 <= i < |slots| => slots[i].who)
  }

  lemma {:induction false} FrameOrderFinds(frames: seq<ArbitratedFrame>, c: Contender, k: nat)
    requires k < |frames| && frames[k].contract.identifier == c.contract.identifier
    requires forall i :: 0 <= i < k ==> frames[i].contract.identifier != c.contract.identifier
    ensures FrameOrder(frames, c) == frames[k].rank
  {
    if k > 0 {
      FrameOrderFinds(frames[1..], c, k - 1);
    }
  }

  /** Strictly increasing ranks that all lie in 1..n, n of them, are 1, 2, ..., n. */
  lemma {:induction false} RanksAreConsecutive(ranks: seq<nat>, k: nat)
    requires forall i, j :: 0 <= i < j < |ranks| ==> ranks[i] < ranks[j]
    requires forall i :: 0 <= i < |ranks| ==> 1 <= ranks[i] <= |ranks|
    requires k < |ranks|
    ensures ranks[k] >= k + 1
    ensures ranks[|ranks| - 1 - k] <= |ranks| - k
  {
    if k > 0 {
      RanksAreConsecutive(ranks, k - 1);
    }
  }

  lemma NoRepeats(ordered: seq<Contender>, ranked: seq<Contender>)
    requires |ordered| == |ranked|
    requires forall d :: d in ordered <==> d in ranked
    requires forall i, j :: 0 <= i < j < |ranked| ==> ranked[i] != ranked[j]
    ensures forall i, j :: 0 <= i < j < |ordered| ==> ordered[i] != ordered[j]
  {
    DistinctCardinality(ranked);
    assert (set d | d in ordered) == (set d | d in ranked);
    forall i, j | 0 <= i < j < |ordered| ensures ordered[i] != ordered[j] {
      if ordered[i] == ordered[j] {
        RepeatCardinality(ordered, i, j);
      }
    }
  }

  /** Contenders with frame orders 1, 2, ..., n are sorted in one way only. */
  lemma SortedByRank(frames: seq<ArbitratedFrame>, ordered: seq<Contender>, ranked: seq<Contender>)
    requires |ordered| == |ranked|
    requires InFrameOrder(frames, ordered)
    requires forall d :: d in ordered <==> d in ranked
    requires forall i :: 0 <= i < |ranked| ==> FrameOrder(frames, ranked[i]) == i + 1
    ensures ordered == ranked
  {
    NoRepeats(ordered, ranked);
    var ranks := seq(|ordered|, i requires 0 <= i < |ordered| => FrameOrder(frames, ordered[i]));
    forall i | 0 <= i < |ordered|
      ensures 1 <= ranks[i] <= |ranked| && ordered[i] == ranked[ranks[i] - 1]
    {
      assert ordered[i] in ranked;
    }
    forall k | 0 <= k < |ordered| ensures ordered[k] == ranked[k] {
      RanksAreConsecutive(ranks, k);
      RanksAreConsecutive(ranks, |ranks| - 1 - k);
    }
  }

  lemma {:induction false} DistinctCardinality(cs: seq<Contender>)
    requires forall i, j :: 0 <= i < j < |cs| ==> cs[i] != cs[j]
    ensures |set d | d in cs| == |cs|
  {
    if cs != [] {
      var rest := cs[1..];
      DistinctCardinality(rest);
      assert (set d | d in cs) == (set d | d in rest) + {cs[0]};
    }
  }

  lemma {:induction false} AtMostCardinality(cs: seq<Contender>)
    ensures |set d | d in cs| <= |cs|
  {
    if cs != [] {
      AtMostCardinality(cs[1..]);
      assert (set d | d in cs) == (set d | d in cs[1..]) + {cs[0]};
    }
  }

  lemma RepeatCardinality(cs: seq<Contender>, p: nat, q: nat)
    requires p < q < |cs| && cs[p] == cs[q]
    ensures |set d | d in cs| < |cs|
  {
    var without := cs[..q] + cs[q + 1..];
    AtMostCardinality(without);
    assert without[p] == cs[q];
    forall d | d in cs ensures d in without {
      var i :| 0 <= i < |cs| && cs[i] == d;
      assert d == if i < q then without[i] else if i == q then without[p] else without[i - 1];
    }
    assert (set d | d in cs) == (set d | d in without);
  }

  lemma WinnersAreServed(cost: CostModel, S: set<Contender>, clock: nat, slots: seq<Slot>)
    requires Feasible(cost, S, clock, slots)
    ensures forall d :: d in S <==> d in Winners(slots)
    ensures forall i, j :: 0 <= i < j < |slots| ==>
              slots[i].who in S && slots[j].who in S && slots[i].who != slots[j].who
  {
    forall d | d in S ensures d in Winners(slots) {
      var j :| 0 <= j < |slots| && slots[j].who == d;
      assert Winners(slots)[j] == d;
    }
    forall d | d in Winners(slots) ensures d in S {
      var j :| 0 <= j < |slots| && Winners(slots)[j] == d;
      assert slots[j].who in S;
    }
  }

  lemma WinnersAreContenders(r: Rates, cs: seq<Contender>, clock: nat)
    requires DistinctIds(cs)
    ensures var slots := Schedule(r, cs, clock);
            && |Winners(slots)| == |cs|
            && (forall d :: d in cs <==> d in Winners(slots))
            && (forall i, j :: 0 <= i < j < |slots| ==>
                slots[i].who.contract.identifier != slots[j].who.contract.identifier)
  {
    hide Schedule;
    hide Feasible;
    var slots := Schedule(r, cs, clock);
    ScheduleIsChain(r, cs, clock);
    ScheduleIsTheCorrectOne(r, cs, clock, slots);
    WinnersAreServed(CostOf(r), Elements(cs), clock, slots);
    ElementsDistinct(cs);
    forall d ensures d in cs <==> d in Winners(slots) {
      assert d in cs <==> d in Elements(cs);
    }
  }

  /** Sorting the contenders by frame order lines each of them up with its own frame. */
  lemma PairingIsExact(n: Net, cs: seq<Contender>)
    requires DistinctIds(cs)
    ensures var slots := Schedule(n.rates, cs, n.time);
            SortByFrame(FramesOf(n, slots), cs) == Winners(slots)
  {
    var slots := Schedule(n.rates, cs, n.time);
    var frames, ranked := FramesOf(n, slots), Winners(slots);
    WinnersAreContenders(n.rates, cs, n.time);
    SortByFrameSorts(frames, cs);
    forall i | 0 <= i < |ranked| ensures FrameOrder(frames, ranked[i]) == i + 1 {
      FrameOrderFinds(frames, ranked[i], i);
    }
    SortedByRank(frames, SortByFrame(frames, cs), ranked);
  }

  // ---------- the command ----------

  function TransmissionOf(n: Net, c: ArbitrationCommand, f: ArbitratedFrame, contender: Contender): Row {
    TransmissionRow(TransmissionId(c.commandId, f.rank), f.contract.identifier, f.producer, f.contract.frameId,
                    f.contract.format, f.contract.protocol, f.contract.bitrateSwitch,
                    Arbitrated(c.commandId, f.readyAt), contender.payload, f.sequence, f.completedAt,
                    n.version, n.version + 1)
  }

  /** One transmission row per slot, carrying the payload of the contender that was served in it. */
  function TransmissionsOf(n: Net, c: ArbitrationCommand, slots: seq<Slot>): seq<Row> {
    seq(|slots|, i requires 0 <= i < |slots| => TransmissionOf(n, c, FrameOf(n, slots[i], i), slots[i].who))
  }

  predicate AnyRecorded(rows: seq<Row>, added: seq<Row>) {
    exists i :: 0 <= i < |added| && Find(rows, added[i].Table(), added[i].Key()).Some?
  }

  lemma ResolvedDistinct(n: Net, c: ArbitrationCommand)
    requires c.Valid()
    requires ResolveUpTo(n, c.contenders, |c.contenders|).Ok?
    ensures DistinctIds(ResolveUpTo(n, c.contenders, |c.contenders|).value)
    ensures forall x :: x in ResolveUpTo(n, c.contenders, |c.contenders|).value ==> n.time <= x.readyAt
  {
    ResolvedContenders(n, c.contenders, |c.contenders|);
  }

  function BatchSlots(n: Net, c: ArbitrationCommand): (slots: seq<Slot>)
    requires c.Valid() && ResolveUpTo(n, c.contenders, |c.contenders|).Ok?
    ensures slots != [] && RunForward(slots)
  {
    ResolvedDistinct(n, c);
    var cs := ResolveUpTo(n, c.contenders, |c.contenders|).value;
    BatchRunsForward(n.rates, cs, n.time);
    Schedule(n.rates, cs, n.time)
  }

  lemma BatchRunsForward(r: Rates, cs: seq<Contender>, clock: nat)
    requires cs != [] && DistinctIds(cs)
    ensures Schedule(r, cs, clock) != [] && RunForward(Schedule(r, cs, clock))
  {
    ScheduleIsChain(r, cs, clock);
    ScheduleIsTheCorrectOne(r, cs, clock, Schedule(r, cs, clock));
  }

  function Complete(l: Ledger, c: ArbitrationCommand, slots: seq<Slot>): Applied
    requires slots != [] && RunForward(slots)
  {
    var n := l.net;
    var added := TransmissionsOf(n, c, slots);
    if AnyRecorded(l.rows, added) then Reject(l, DuplicateTransmission) else
      var row := ArbitrationRow(c.commandId, c, FramesOf(n, slots), UtilizationOf(n, slots), n.version, n.version + 1);
      Record(l, n.(version := n.version + 1, nextSequence := n.nextSequence + |slots|, time := EndOf(n.time, slots)),
             [row] + added, row)
  }

  function ExecuteArbitration(l: Ledger, c: ArbitrationCommand): Applied
    requires c.Valid()
  {
    match Find(l.rows, Arbitrations, c.commandId)
    case Some(row) =>
      if row.ArbitrationRow? && row.arbitration == c then Applied(l, Replayed(row))
      else Reject(l, ArbitrationCommandConflict)
    case None =>
      if c.expectedVersion != l.net.version then Reject(l, VersionConflict(l.net.version)) else
        var resolved := ResolveUpTo(l.net, c.contenders, |c.contenders|);
        if resolved.Err? then Reject(l, resolved.error) else Complete(l, c, BatchSlots(l.net, c))
  }

  /** Runs the bus and prepares everything the command records. */
  method RunBatch(network: CanNetwork, c: ArbitrationCommand, contenders: seq<Contender>)
    returns (frames: seq<ArbitratedFrame>, utilization: Utilization, added: seq<Row>)
    requires c.Valid() && ResolveUpTo(network.View(), c.contenders, |c.contenders|) == Ok(contenders)
    ensures var n := network.View();
            var slots := BatchSlots(n, c);
            && frames == FramesOf(n, slots) && |frames| == |slots|
            && utilization == UtilizationOf(n, slots) && added == TransmissionsOf(n, c, slots)
  {
    ghost var n := network.View();
    ResolvedDistinct(n, c);
    frames, utilization := Arbitrate(network, contenders);
    var ordered := SortByFrame(frames, contenders);
    PairingIsExact(n, contenders);
    added := PairFrames(network, c, frames, ordered, BatchSlots(n, c));
  }

  /**
   * The flush at the end of the command fails on the unique constraint when an id of one of its
   * transmissions is already taken, and the surrounding transaction then undoes the whole command;
   * here the ids are checked before anything is written.
   */
  method ExecuteBatch(session: Session, network: CanNetwork, c: ArbitrationCommand) returns (outcome: Outcome)
    requires c.Valid()
    modifies session, network
    ensures Applied(Snapshot(network, session), outcome) == ExecuteArbitration(old(Snapshot(network, session)), c)
  {
    hide BatchSlots;
    hide FramesOf;
    hide Occupied;
    hide MaximumLatency;
    hide TransmissionsOf;
    hide AnyRecorded;
    hide ResolveUpTo;
    hide Find;
    var existing := Find(session.rows, Arbitrations, c.commandId);
    if existing.Some? {
      return if existing.value.ArbitrationRow? && existing.value.arbitration == c
        then Replayed(existing.value) else Rejected(ArbitrationCommandConflict);
    }
    if c.expectedVersion != network.version {
      return Rejected(VersionConflict(network.version));
    }
    var contenders := ResolveContenders(network, c);
    if contenders.Err? {
      return Rejected(contenders.error);
    }
    var frames, utilization, added := RunBatch(network, c, contenders.value);
    if AnyRecorded(session.rows, added) {
      return Rejected(DuplicateTransmission);
    }
    var row := ArbitrationRow(c.commandId, c, frames, utilization, network.version, network.version + 1);
    network.version := network.version + 1;
    network.nextSequence := network.nextSequence + |frames|;
    network.simulationTime := utilization.windowEnd;
    session.rows := session.rows + ([row] + added);
    return Done(row);
  }

  /** `for frame, contender in zip(frames, ordered_contenders, strict=True): ...` */
  method PairFrames(network: CanNetwork, c: ArbitrationCommand, frames: seq<ArbitratedFrame>, ordered: seq<Contender>,
                    ghost slots: seq<Slot>)
    returns (added: seq<Row>)
    requires frames == FramesOf(network.View(), slots) && ordered == Winners(slots)
    ensures added == TransmissionsOf(network.View(), c, slots)
  {
    added := [];
    for i := 0 to |frames|
      invariant added == TransmissionsOf(network.View(), c, slots)[..i]
    {
      var frame, contender := frames[i], ordered[i];
      added := added + [TransmissionRow(
        TransmissionId(c.commandId, frame.rank), frame.contract.identifier, frame.producer, frame.contract.frameId,
        frame.contract.format, frame.contract.protocol, frame.contract.bitrateSwitch,
        Arbitrated(c.commandId, frame.readyAt), contender.payload, frame.sequence, frame.completedAt,
        network.version, network.version + 1)];
    }
  }
}

/**
 * What a correct arbitration outcome is, independently of how it is computed, and what follows from
 * it: uniqueness, the makespan of the batch and its optimality, and a bound on every response time.
 */
module Scheduling {
  import opened Basics
  import opened Schemas

  datatype Contender = Contender(contract: FrameContract, producer: NodeId, payload: seq<Byte>, readyAt: nat)

  /** One bus occupation: `who` transmits from `start` to `end`. */
  datatype Slot = Slot(who: Contender, start: nat, end: nat)

  /** Arbitration priority: numeric identifier, then standard before extended, then contract name. */
  predicate KeyLess(a: Contender, b: Contender) {
    var x, y := a.contract, b.contract;
    || x.frameId < y.frameId
    || (x.frameId == y.frameId && x.format.Standard? && y.format.Extended?)
    || (x.frameId == y.frameId && x.format == y.format && StringLess(x.identifier, y.identifier))
  }

  ghost predicate DistinctContracts(S: set<Contender>) {
    forall a, b :: a in S && b in S && a != b ==> a.contract.identifier != b.contract.identifier
  }

  lemma KeyOrderTotal(a: Contender, b: Contender)
    requires a.contract.identifier != b.contract.identifier
    ensures KeyLess(a, b) <==> !KeyLess(b, a)
  {
    var s, t := a.contract.identifier, b.contract.identifier;
    StringLessTotal(s, t);
    if StringLess(s, t) {
      StringLessAsymmetric(s, t);
    } else {
      StringLessAsymmetric(t, s);
    }
  }

  lemma KeyOrderTransitive(a: Contender, b: Contender, c: Contender)
    requires KeyLess(a, b) && KeyLess(b, c)
    ensures KeyLess(a, c)
  {
    if StringLess(a.contract.identifier, b.contract.identifier)
        && StringLess(b.contract.identifier, c.contract.identifier) {
      StringLessTransitive(a.contract.identifier, b.contract.identifier, c.contract.identifier);
    }
  }

  /** How long each contender occupies the bus. Nothing below depends on how it is computed. */
  type CostModel = Contender -> nat

  // ---------- the specification ----------

  /** The slots serve exactly the contenders S, one after the other, none before it is ready. */
  ghost predicate Feasible(cost: CostModel, S: set<Contender>, clock: nat, slots: seq<Slot>) {
    && (forall i :: 0 <= i < |slots| ==>
          && slots[i].who in S
          && clock <= slots[i].start
          && slots[i].who.readyAt <= slots[i].start
          && slots[i].end == slots[i].start + cost(slots[i].who))
    && (forall i, j :: 0 <= i < j < |slots| ==> slots[i].end <= slots[j].start && slots[i].who != slots[j].who)
    && (forall c :: c in S ==> exists i :: 0 <= i < |slots| && slots[i].who == c)
  }

  /** When slot i could begin at the earliest: the end of its predecessor. */
  function FreeSince(clock: nat, slots: seq<Slot>, i: nat): nat
    requires i <= |slots|
  {
    if i == 0 then clock else slots[i - 1].end
  }

  /** The bus idles before a slot only while no contender still waiting is ready. */
  ghost predicate NeverIdleWithWork(clock: nat, slots: seq<Slot>) {
    forall i, j :: 0 <= i <= j < |slots| ==>
      slots[i].start == FreeSince(clock, slots, i) || slots[i].start <= slots[j].who.readyAt
  }

  /** Among the contenders ready when a slot starts, the one with the least key transmits. */
  ghost predicate ByPriority(slots: seq<Slot>) {
    forall i, j :: 0 <= i < j < |slots| && slots[j].who.readyAt <= slots[i].start ==>
      KeyLess(slots[i].who, slots[j].who)
  }

  ghost predicate WorkConserving(cost: CostModel, S: set<Contender>, clock: nat, slots: seq<Slot>) {
    Feasible(cost, S, clock, slots) && NeverIdleWithWork(clock, slots)
  }

  ghost predicate Correct(cost: CostModel, S: set<Contender>, clock: nat, slots: seq<Slot>) {
    WorkConserving(cost, S, clock, slots) && ByPriority(slots)
  }

  // ---------- the same, one slot at a time ----------

  datatype Discipline = AnyOrder | NoIdling | LeastKey

  /** `t` is the first instant from `clock` on at which some contender is ready. */
  ghost predicate FirstFree(S: set<Contender>, clock: nat, t: nat) {
    && clock <= t
    && (exists c :: c in S && c.readyAt <= t)
    && (t == clock || forall c :: c in S ==> t <= c.readyAt)
  }

  /** `s` may be the next slot when S waits and the bus is free from `clock` on. */
  ghost predicate Next(d: Discipline, cost: CostModel, S: set<Contender>, clock: nat, s: Slot) {
    && s.who in S
    && clock <= s.start
    && s.who.readyAt <= s.start
    && s.end == s.start + cost(s.who)
    && (d != AnyOrder ==> FirstFree(S, clock, s.start))
    && (d == LeastKey ==> forall c :: c in S && c != s.who && c.readyAt <= s.start ==> KeyLess(s.who, c))
  }

  ghost predicate Chain(d: Discipline, cost: CostModel, S: set<Contender>, clock: nat, slots: seq<Slot>) {
    if slots == [] then S == {} else
      Next(d, cost, S, clock, slots[0]) && Chain(d, cost, S - {slots[0].who}, slots[0].end, slots[1..])
  }

  lemma {:induction false} FeasibleIsChain(cost: CostModel, S: set<Contender>, clock: nat, slots: seq<Slot>)
    requires Feasible(cost, S, clock, slots)
    ensures Chain(AnyOrder, cost, S, clock, slots)
    decreases |slots|
  {
    if slots == [] {
      assert forall c :: c !in S;
    } else {
      var rest := slots[1..];
      forall c | c in S - {slots[0].who} ensures exists i :: 0 <= i < |rest| && rest[i].who == c {
        var i :| 0 <= i < |slots| && slots[i].who == c;
        assert rest[i - 1].who == c;
      }
      FeasibleIsChain(cost, S - {slots[0].who}, slots[0].end, rest);
    }
  }

  lemma FeasibleCons(cost: CostModel, S: set<Contender>, clock: nat, slots: seq<Slot>)
    requires slots != [] && Next(AnyOrder, cost, S, clock, slots[0])
    requires Feasible(cost, S - {slots[0].who}, slots[0].end, slots[1..])
    ensures Feasible(cost, S, clock, slots)
  {
    var rest, w := slots[1..], slots[0].who;
    forall i | 0 < i < |slots|
      ensures slots[i].who in S && slots[i].who != w && slots[0].end <= slots[i].start
      ensures slots[i].who.readyAt <= slots[i].start && slots[i].end == slots[i].start + cost(slots[i].who)
    {
      assert slots[i] == rest[i - 1];
    }
    forall i, j | 0 <= i < j < |slots| ensures slots[i].end <= slots[j].start && slots[i].who != slots[j].who {
      if i > 0 {
        assert slots[i] == rest[i - 1] && slots[j] == rest[j - 1];
      }
    }
    AllServed(S, slots);
  }

  lemma AllServed(S: set<Contender>, slots: seq<Slot>)
    requires slots != []
    requires forall c :: c in S - {slots[0].who} ==> exists i :: 0 <= i < |slots[1..]| && slots[1..][i].who == c
    ensures forall c :: c in S ==> exists i :: 0 <= i < |slots| && slots[i].who == c
  {
    forall c | c in S ensures exists i :: 0 <= i < |slots| && slots[i].who == c {
      if c == slots[0].who {
        assert slots[0].who == c;
      } else {
        assert c in S - {slots[0].who};
        var i :| 0 <= i < |slots[1..]| && slots[1..][i].who == c;
        assert slots[i + 1].who == c;
      }
    }
  }

  lemma {:induction false} ChainIsFeasible(d: Discipline, cost: CostModel, S: set<Contender>, clock: nat,
                                           slots: seq<Slot>)
    requires Chain(d, cost, S, clock, slots)
    ensures Feasible(cost, S, clock, slots)
    decreases |slots|
  {
    if slots != [] {
      ChainIsFeasible(d, cost, S - {slots[0].who}, slots[0].end, slots[1..]);
      FeasibleCons(cost, S, clock, slots);
    }
  }

  lemma NeverIdleTail(clock: nat, slots: seq<Slot>)
    requires slots != []
    ensures NeverIdleWithWork(clock, slots) <==>
            && NeverIdleWithWork(slots[0].end, slots[1..])
            && (slots[0].start == clock || forall j :: 0 <= j < |slots| ==> slots[0].start <= slots[j].who.readyAt)
  {}

  lemma ByPriorityTail(slots: seq<Slot>)
    requires slots != []
    ensures ByPriority(slots) <==>
            && ByPriority(slots[1..])
            && forall j :: 0 < j < |slots| && slots[j].who.readyAt <= slots[0].start ==>
                 KeyLess(slots[0].who, slots[j].who)
  {}

  lemma ServedExactlyOnce(cost: CostModel, S: set<Contender>, clock: nat, slots: seq<Slot>)
    requires Feasible(cost, S, clock, slots)
    ensures forall c :: c in S ==> exists j :: 0 <= j < |slots| && slots[j].who == c
    ensures forall j :: 0 <= j < |slots| ==> slots[j].who in S
    ensures forall i, j :: 0 <= i < j < |slots| ==> slots[i].who != slots[j].who
  {}

  lemma HeadIdlesFairly(cost: CostModel, S: set<Contender>, clock: nat, slots: seq<Slot>)
    requires Chain(AnyOrder, cost, S, clock, slots) && slots != []
    ensures FirstFree(S, clock, slots[0].start) <==>
            slots[0].start == clock || forall j :: 0 <= j < |slots| ==> slots[0].start <= slots[j].who.readyAt
  {
    ChainIsFeasible(AnyOrder, cost, S, clock, slots);
    ServedExactlyOnce(cost, S, clock, slots);
  }

  lemma HeadHasLeastKey(cost: CostModel, S: set<Contender>, clock: nat, slots: seq<Slot>)
    requires Chain(AnyOrder, cost, S, clock, slots) && slots != []
    ensures (forall c :: c in S && c != slots[0].who && c.readyAt <= slots[0].start ==> KeyLess(slots[0].who, c)) <==>
            (forall j :: 0 < j < |slots| && slots[j].who.readyAt <= slots[0].start ==>
             KeyLess(slots[0].who, slots[j].who))
  {
    ChainIsFeasible(AnyOrder, cost, S, clock, slots);
    ServedExactlyOnce(cost, S, clock, slots);
  }

  lemma {:induction false} NeverIdleIffChain(cost: CostModel, S: set<Contender>, clock: nat, slots: seq<Slot>)
    requires Chain(AnyOrder, cost, S, clock, slots)
    ensures NeverIdleWithWork(clock, slots) <==> Chain(NoIdling, cost, S, clock, slots)
    decreases |slots|
  {
    if slots != [] {
      NeverIdleIffChain(cost, S - {slots[0].who}, slots[0].end, slots[1..]);
      HeadIdlesFairly(cost, S, clock, slots);
      NeverIdleTail(clock, slots);
    }
  }

  lemma {:induction false} ByPriorityIffChain(cost: CostModel, S: set<Contender>, clock: nat, slots: seq<Slot>)
    requires Chain(NoIdling, cost, S, clock, slots)
    ensures ByPriority(slots) <==> Chain(LeastKey, cost, S, clock, slots)
    decreases |slots|
  {
    if slots != [] {
      ByPriorityIffChain(cost, S - {slots[0].who}, slots[0].end, slots[1..]);
      StricterChain(NoIdling, AnyOrder, cost, S, clock, slots);
      HeadHasLeastKey(cost, S, clock, slots);
      ByPriorityTail(slots);
    }
  }

  lemma {:induction false} StricterChain(d: Discipline, e: Discipline, cost: CostModel, S: set<Contender>, clock: nat,
                                         slots: seq<Slot>)
    requires Chain(d, cost, S, clock, slots)
    requires e == AnyOrder || (e == NoIdling && d == LeastKey)
    ensures Chain(e, cost, S, clock, slots)
    decreases |slots|
  {
    if slots != [] {
      StricterChain(d, e, cost, S - {slots[0].who}, slots[0].end, slots[1..]);
    }
  }

  lemma WorkConservingIffChain(cost: CostModel, S: set<Contender>, clock: nat, slots: seq<Slot>)
    ensures WorkConserving(cost, S, clock, slots) <==> Chain(NoIdling, cost, S, clock, slots)
  {
    if Feasible(cost, S, clock, slots) {
      FeasibleIsChain(cost, S, clock, slots);
      NeverIdleIffChain(cost, S, clock, slots);
    } else if Chain(NoIdling, cost, S, clock, slots) {
      ChainIsFeasible(NoIdling, cost, S, clock, slots);
    }
  }

  /** The index-based specification and the slot-by-slot one agree. */
  lemma CorrectIffChain(cost: CostModel, S: set<Contender>, clock: nat, slots: seq<Slot>)
    ensures Correct(cost, S, clock, slots) <==> Chain(LeastKey, cost, S, clock, slots)
  {
    WorkConservingIffChain(cost, S, clock, slots);
    if Chain(NoIdling, cost, S, clock, slots) {
      ByPriorityIffChain(cost, S, clock, slots);
    } else if Chain(LeastKey, cost, S, clock, slots) {
      StricterChain(LeastKey, NoIdling, cost, S, clock, slots);
    }
  }

  lemma {:induction false} ChainIsUnique(cost: CostModel, S: set<Contender>, clock: nat, a: seq<Slot>, b: seq<Slot>)
    requires DistinctContracts(S)
    requires Chain(LeastKey, cost, S, clock, a) && Chain(LeastKey, cost, S, clock, b)
    ensures a == b
    decreases |a|
  {
    if a != [] && b != [] {
      var x, y := a[0].who, b[0].who;
      assert a[0].start == b[0].start;
      if x != y {
        KeyOrderTotal(x, y);
      }
      ChainIsUnique(cost, S - {x}, a[0].end, a[1..], b[1..]);
      assert a == [a[0]] + a[1..] && b == [b[0]] + b[1..];
    }
  }

  /** At most one schedule is correct: the specification leaves no choice. */
  lemma CorrectIsUnique(cost: CostModel, S: set<Contender>, clock: nat, a: seq<Slot>, b: seq<Slot>)
    requires DistinctContracts(S)
    requires Correct(cost, S, clock, a) && Correct(cost, S, clock, b)
    ensures a == b
  {
    CorrectIffChain(cost, S, clock, a);
    CorrectIffChain(cost, S, clock, b);
    ChainIsUnique(cost, S, clock, a, b);
  }

  // ---------- makespan ----------

  ghost function Work(cost: CostModel, S: set<Contender>): nat {
    if S == {} then 0 else
      var c :| c in S;
      cost(c) + Work(cost, S - {c})
  }

  lemma {:induction false} WorkRemove(cost: CostModel, S: set<Contender>, c: Contender)
    requires c in S
    ensures Work(cost, S) == cost(c) + Work(cost, S - {c})
    decreases |S|
  {
    var d :| d in S && Work(cost, S) == cost(d) + Work(cost, S - {d});
    if d != c {
      WorkRemove(cost, S - {d}, c);
      WorkRemove(cost, S - {c}, d);
      assert S - {d} - {c} == S - {c} - {d};
    }
  }

  /** The contenders that become ready at t or later. */
  ghost function ReadyFrom(S: set<Contender>, t: nat): set<Contender> {
    set c | c in S && t <= c.readyAt
  }

  function EndOf(clock: nat, slots: seq<Slot>): nat {
    FreeSince(clock, slots, |slots|)
  }

  /** No feasible schedule can finish what becomes ready from t on before t plus that work. */
  lemma {:induction false} FinishLowerBound(cost: CostModel, S: set<Contender>, clock: nat, slots: seq<Slot>, t: nat)
    requires Chain(AnyOrder, cost, S, clock, slots)
    requires ReadyFrom(S, t) != {}
    ensures Max(clock, t) + Work(cost, ReadyFrom(S, t)) <= EndOf(clock, slots)
    decreases |slots|
  {
    if slots != [] {
      var s := slots[0];
      var rest := S - {s.who};
      EndOfTail(clock, slots);
      if t <= s.who.readyAt {
        WorkRemove(cost, ReadyFrom(S, t), s.who);
        assert ReadyFrom(S, t) - {s.who} == ReadyFrom(rest, t);
        if ReadyFrom(rest, t) == {} {
          EndAfterStart(AnyOrder, cost, rest, s.end, slots[1..]);
        } else {
          FinishLowerBound(cost, rest, s.end, slots[1..], t);
        }
      } else {
        assert ReadyFrom(S, t) == ReadyFrom(rest, t);
        FinishLowerBound(cost, rest, s.end, slots[1..], t);
      }
    }
  }

  lemma EndOfTail(clock: nat, slots: seq<Slot>)
    requires slots != []
    ensures EndOf(clock, slots) == EndOf(slots[0].end, slots[1..])
  {}

  lemma {:induction false} EndAfterStart(d: Discipline, cost: CostModel, S: set<Contender>, clock: nat,
                                         slots: seq<Slot>)
    requires Chain(d, cost, S, clock, slots)
    ensures clock <= EndOf(clock, slots)
    decreases |slots|
  {
    if slots != [] {
      EndOfTail(clock, slots);
      EndAfterStart(d, cost, S - {slots[0].who}, slots[0].end, slots[1..]);
    }
  }

  /** A work-conserving schedule is one busy period from `clock`, or its last busy period starts at a ready time. */
  lemma {:induction false} LastBusyPeriod(cost: CostModel, S: set<Contender>, clock: nat, slots: seq<Slot>)
    requires Chain(NoIdling, cost, S, clock, slots)
    ensures || EndOf(clock, slots) == clock + Work(cost, S)
            || exists c :: c in S && clock < c.readyAt
                           && EndOf(clock, slots) == c.readyAt + Work(cost, ReadyFrom(S, c.readyAt))
    decreases |slots|
  {
    if slots != [] {
      var s := slots[0];
      var rest := S - {s.who};
      WorkRemove(cost, S, s.who);
      EndOfTail(clock, slots);
      LastBusyPeriod(cost, rest, s.end, slots[1..]);
      if EndOf(clock, slots) == s.end + Work(cost, rest) {
        if s.start != clock {
          assert ReadyFrom(S, s.who.readyAt) == S;
        }
      } else {
        var c :| c in rest && s.end < c.readyAt
            && EndOf(clock, slots) == c.readyAt + Work(cost, ReadyFrom(rest, c.readyAt));
        assert ReadyFrom(rest, c.readyAt) == ReadyFrom(S, c.readyAt);
      }
    }
  }

  /** The last busy period of a batch none of whose contenders was ready before `clock` starts at a ready time. */
  lemma BatchBusyPeriod(cost: CostModel, S: set<Contender>, clock: nat, slots: seq<Slot>)
    requires Chain(NoIdling, cost, S, clock, slots)
    requires S != {} && forall c :: c in S ==> clock <= c.readyAt
    ensures exists c :: c in S && EndOf(clock, slots) == c.readyAt + Work(cost, ReadyFrom(S, c.readyAt))
  {
    LastBusyPeriod(cost, S, clock, slots);
    if EndOf(clock, slots) == clock + Work(cost, S) {
      var c := slots[0].who;
      assert ReadyFrom(S, c.readyAt) == S by {
        assert c.readyAt == slots[0].start;
      }
      FeasibleBound(cost, S, clock, slots, c);
    }
  }

  lemma FeasibleBound(cost: CostModel, S: set<Contender>, clock: nat, slots: seq<Slot>, c: Contender)
    requires Chain(AnyOrder, cost, S, clock, slots) || Chain(NoIdling, cost, S, clock, slots)
    requires c in S
    ensures c.readyAt + Work(cost, ReadyFrom(S, c.readyAt)) <= EndOf(clock, slots)
  {
    if Chain(NoIdling, cost, S, clock, slots) {
      ChainIsFeasible(NoIdling, cost, S, clock, slots);
      FeasibleIsChain(cost, S, clock, slots);
    }
    assert c in ReadyFrom(S, c.readyAt);
    FinishLowerBound(cost, S, clock, slots, c.readyAt);
  }

  /**
   * Closed form of the makespan: the end of a work-conserving schedule is the maximum, over the ready
   * times t of the contenders, of t plus the work that becomes ready at t or later. Priorities do not
   * enter it.
   */
  lemma MakespanClosedForm(cost: CostModel, S: set<Contender>, clock: nat, slots: seq<Slot>)
    requires WorkConserving(cost, S, clock, slots)
    requires S != {} && forall c :: c in S ==> clock <= c.readyAt
    ensures forall c :: c in S ==> c.readyAt + Work(cost, ReadyFrom(S, c.readyAt)) <= EndOf(clock, slots)
    ensures exists c :: c in S && EndOf(clock, slots) == c.readyAt + Work(cost, ReadyFrom(S, c.readyAt))
  {
    WorkConservingIffChain(cost, S, clock, slots);
    BatchBusyPeriod(cost, S, clock, slots);
    forall c | c in S ensures c.readyAt + Work(cost, ReadyFrom(S, c.readyAt)) <= EndOf(clock, slots) {
      FeasibleBound(cost, S, clock, slots, c);
    }
  }

  /** No way of serving the batch without overlap, in any order and with any idling, finishes earlier. */
  lemma MakespanOptimal(cost: CostModel, S: set<Contender>, clock: nat, slots: seq<Slot>, other: seq<Slot>)
    requires WorkConserving(cost, S, clock, slots)
    requires S != {} && forall c :: c in S ==> clock <= c.readyAt
    requires Feasible(cost, S, clock, other)
    ensures EndOf(clock, slots) <= EndOf(clock, other)
  {
    MakespanClosedForm(cost, S, clock, slots);
    var c :| c in S && EndOf(clock, slots) == c.readyAt + Work(cost, ReadyFrom(S, c.readyAt));
    FeasibleIsChain(cost, S, clock, other);
    FeasibleBound(cost, S, clock, other, c);
  }

  /** Whatever rule picks the next ready contender, the batch ends at the same instant. */
  lemma MakespanIgnoresPriorities(cost: CostModel, S: set<Contender>, clock: nat, a: seq<Slot>, b: seq<Slot>)
    requires WorkConserving(cost, S, clock, a) && WorkConserving(cost, S, clock, b)
    requires S != {} && forall c :: c in S ==> clock <= c.readyAt
    ensures EndOf(clock, a) == EndOf(clock, b)
  {
    MakespanOptimal(cost, S, clock, a, b);
    MakespanOptimal(cost, S, clock, b, a);
  }

  // ---------- response times ----------

  ghost function Higher(S: set<Contender>, c: Contender): set<Contender> {
    set h | h in S && KeyLess(h, c)
  }

  ghost function Lower(S: set<Contender>, c: Contender): set<Contender> {
    set l | l in S && KeyLess(c, l)
  }

  /** The longest transmission among S, or 0. */
  ghost function Longest(cost: CostModel, S: set<Contender>): (m: nat)
    ensures forall c :: c in S ==> cost(c) <= m
    ensures S == {} ==> m == 0
    ensures S != {} ==> exists c :: c in S && cost(c) == m
  {
    if S == {} then 0 else
      var c :| c in S;
      var rest := Longest(cost, S - {c});
      assert forall d :: d in S ==> d == c || d in S - {c};
      Max(cost(c), rest)
  }

  /** Longest time a contender can be kept waiting once ready: all higher priorities, and the rest of one lower one. */
  ghost function MaximumWait(cost: CostModel, S: set<Contender>, c: Contender): nat {
    Work(cost, Higher(S, c)) + (if Lower(S, c) == {} then 0 else Max(Longest(cost, Lower(S, c)) - 1, 0))
  }

  lemma {:induction false} WaitOnceReady(cost: CostModel, S: set<Contender>, clock: nat, slots: seq<Slot>, k: nat)
    requires DistinctContracts(S)
    requires Chain(LeastKey, cost, S, clock, slots) && k < |slots|
    requires slots[k].who in S && slots[k].who.readyAt <= clock
    ensures slots[k].start <= clock + Work(cost, Higher(S, slots[k].who))
    decreases |slots|
  {
    var s, c := slots[0], slots[k].who;
    if k > 0 {
      var rest := S - {s.who};
      ServedLater(cost, S, clock, slots, k);
      assert KeyLess(s.who, c);
      WaitOnceReady(cost, rest, s.end, slots[1..], k - 1);
      WorkRemove(cost, Higher(S, c), s.who);
      assert Higher(S, c) - {s.who} == Higher(rest, c);
    }
  }

  lemma ServedLater(cost: CostModel, S: set<Contender>, clock: nat, slots: seq<Slot>, k: nat)
    requires Chain(LeastKey, cost, S, clock, slots) && 0 < k < |slots|
    ensures slots[k].who in S && slots[k].who != slots[0].who
    ensures slots[1..][k - 1] == slots[k]
  {
    CorrectIffChain(cost, S, clock, slots);
    ServedExactlyOnce(cost, S, clock, slots);
  }

  lemma {:induction false} WaitFromReady(cost: CostModel, S: set<Contender>, clock: nat, slots: seq<Slot>, k: nat)
    requires DistinctContracts(S)
    requires Chain(LeastKey, cost, S, clock, slots) && k < |slots|
    requires slots[k].who in S && clock <= slots[k].who.readyAt
    ensures slots[k].start <= slots[k].who.readyAt + MaximumWait(cost, S, slots[k].who)
    decreases |slots|
  {
    var s, c := slots[0], slots[k].who;
    if k > 0 {
      var rest := S - {s.who};
      ServedLater(cost, S, clock, slots, k);
      WaitSplits(cost, S, s.who, c);
      if s.end <= c.readyAt {
        WaitFromReady(cost, rest, s.end, slots[1..], k - 1);
      } else {
        WaitOnceReady(cost, rest, s.end, slots[1..], k - 1);
      }
    }
  }

  lemma OthersWithout(S: set<Contender>, w: Contender, c: Contender)
    ensures Higher(S - {w}, c) == Higher(S, c) - {w}
    ensures Lower(S - {w}, c) == Lower(S, c) - {w}
  {}

  /** Taking another contender w out of S shortens the wait of c by w if w is higher, and never lengthens it. */
  lemma WaitSplits(cost: CostModel, S: set<Contender>, w: Contender, c: Contender)
    requires DistinctContracts(S)
    requires w in S && c in S && w != c
    ensures MaximumWait(cost, S - {w}, c) <= MaximumWait(cost, S, c)
    ensures KeyLess(w, c) ==> Work(cost, Higher(S, c)) == cost(w) + Work(cost, Higher(S - {w}, c))
    ensures !KeyLess(w, c) ==> Higher(S - {w}, c) == Higher(S, c)
                               && Work(cost, Higher(S, c)) + cost(w) - 1 <= MaximumWait(cost, S, c)
  {
    OthersWithout(S, w, c);
    KeyOrderTotal(w, c);
    if w in Higher(S, c) {
      WorkRemove(cost, Higher(S, c), w);
      assert Lower(S, c) - {w} == Lower(S, c);
    } else {
      assert Higher(S, c) - {w} == Higher(S, c);
      assert w in Lower(S, c);
      LongestSubset(cost, Lower(S, c) - {w}, Lower(S, c));
    }
  }

  lemma LongestSubset(cost: CostModel, A: set<Contender>, B: set<Contender>)
    requires A <= B
    ensures Longest(cost, A) <= Longest(cost, B)
  {}

  /**
   * Response-time bound: a contender starts no later than its ready time plus the transmissions of all
   * higher priorities plus the longest lower-priority transmission less 1 us.
   */
  lemma ResponseTimeBound(cost: CostModel, S: set<Contender>, clock: nat, slots: seq<Slot>, k: nat)
    requires DistinctContracts(S)
    requires Correct(cost, S, clock, slots) && k < |slots|
    requires clock <= slots[k].who.readyAt
    ensures slots[k].start <= slots[k].who.readyAt + MaximumWait(cost, S, slots[k].who)
  {
    CorrectIffChain(cost, S, clock, slots);
    WaitFromReady(cost, S, clock, slots, k);
  }
}

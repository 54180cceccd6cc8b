/** Advancing a world scene: actors on trajectories and actors at constant velocity. */
module WorldScene {
  import opened AdasSchemas
  import opened Basics
  import opened Rounding

  datatype State = State(position: Vec, velocity: Vec)

  function RoundVec(v: Vec): Vec {
    Vec(Round6(v.x), Round6(v.y), Round6(v.z))
  }

  /** The coordinate reached from p at speed v after the given number of milliseconds. */
  function Displaced(p: real, v: real, ms: nat): real {
    p + v * (ms as real / 1000.0)
  }

  function Moved(p: Vec, v: Vec, ms: nat): Vec {
    Vec(Displaced(p.x, v.x, ms), Displaced(p.y, v.y, ms), Displaced(p.z, v.z, ms))
  }

  // ---------- trajectories ----------

  predicate Covers(ws: seq<Waypoint>, i: nat, time: nat)
    requires i + 1 < |ws|
  {
    ws[i].time <= time <= ws[i + 1].time
  }

  /** The first segment that covers the time. */
  function FindSegment(ws: seq<Waypoint>, time: nat, from: nat): (r: Option<nat>)
    requires from < |ws|
    ensures r.Some? ==> from <= r.value && r.value + 1 < |ws| && Covers(ws, r.value, time)
    ensures r.None? ==> forall i :: from <= i && i + 1 < |ws| ==> !Covers(ws, i, time)
    decreases |ws| - from
  {
    if from + 1 == |ws| then None
    else if Covers(ws, from, time) then Some(from)
    else FindSegment(ws, time, from + 1)
  }

  /** How far the time is into the segment, from 0 to 1. */
  function Ratio(start: Waypoint, end: Waypoint, time: nat): real
    requires start.time < end.time
  {
    (time - start.time) as real / (end.time - start.time) as real
  }

  function Part(d: real, ratio: real): real {
    d * ratio
  }

  function Between(a: real, b: real, ratio: real): real {
    a + Part(b - a, ratio)
  }

  function Interpolated(start: Waypoint, end: Waypoint, time: nat): Vec
    requires start.time < end.time
  {
    var r := Ratio(start, end, time);
    Vec(Between(start.position.x, end.position.x, r), Between(start.position.y, end.position.y, r),
        Between(start.position.z, end.position.z, r))
  }

  /** The mean velocity on a segment. */
  function MeanVelocity(start: Waypoint, end: Waypoint): Vec
    requires start.time < end.time
  {
    var ms := (end.time - start.time) as real;
    Vec(Round6((end.position.x - start.position.x) * 1000.0 / ms),
        Round6((end.position.y - start.position.y) * 1000.0 / ms),
        Round6((end.position.z - start.position.z) * 1000.0 / ms))
  }

  /** On a segment: the interpolated position, and the velocity given at its end or else the mean one. */
  function SegmentState(start: Waypoint, end: Waypoint, time: nat): Option<State>
    requires start.time < end.time
  {
    var position := RoundVec(Interpolated(start, end, time));
    if !position.InRange() then None
    else if end.velocity.Some? then Some(State(position, end.velocity.value))
    else if !MeanVelocity(start, end).InRange() then None
    else Some(State(position, MeanVelocity(start, end)))
  }

  /** Past the last waypoint the actor moves on at its final velocity. */
  function FinalState(final: Waypoint, time: nat): Option<State>
    requires final.time <= time
  {
    var v := if final.velocity.Some? then final.velocity.value else Vec(0.0, 0.0, 0.0);
    var position := RoundVec(Moved(final.position, v, time - final.time));
    if position.InRange() then Some(State(position, v)) else None
  }

  /** The state on a trajectory; none when a vector it builds is out of range, which raises. */
  function TrajectoryState(a: Actor, time: nat): Option<State>
    requires a.Valid() && a.trajectory != []
  {
    var ws := a.trajectory;
    if time >= ws[|ws| - 1].time then FinalState(ws[|ws| - 1], time)
    else
      match FindSegment(ws, time, 0)
      case Some(i) => SegmentState(ws[i], ws[i + 1], time)
      case None => Some(State(a.position, a.velocity))
  }

  /** The fall-through of the search is dead code: some segment always covers the time. */
  lemma {:induction false} SomeSegmentCovers(ws: seq<Waypoint>, time: nat, from: nat)
    requires from < |ws| && ws[from].time <= time < ws[|ws| - 1].time
    ensures FindSegment(ws, time, from).Some?
    decreases |ws| - from
  {
    if from + 1 < |ws| && time > ws[from + 1].time {
      SomeSegmentCovers(ws, time, from + 1);
    }
  }

  /** On a trajectory, where an actor was before does not matter. */
  lemma TrajectoryForgets(a: Actor, time: nat, position: Vec, velocity: Vec)
    requires a.Valid() && a.trajectory != []
    ensures TrajectoryState(a.(position := position, velocity := velocity), time) == TrajectoryState(a, time)
  {
    if time < a.trajectory[|a.trajectory| - 1].time {
      SomeSegmentCovers(a.trajectory, time, 0);
    }
  }

  lemma BetweenBounds(a: real, b: real, ratio: real)
    requires 0.0 <= ratio <= 1.0
    ensures a <= b ==> a <= Between(a, b, ratio) <= b
    ensures b <= a ==> b <= Between(a, b, ratio) <= a
  {
    hide Part;
    PartBounds(b - a, ratio);
  }

  lemma PartBounds(d: real, ratio: real)
    requires 0.0 <= ratio <= 1.0
    ensures d >= 0.0 ==> 0.0 <= Part(d, ratio) <= d
    ensures d <= 0.0 ==> d <= Part(d, ratio) <= 0.0
  {}

  lemma RatioBounds(start: Waypoint, end: Waypoint, time: nat)
    requires start.time < end.time && start.time <= time <= end.time
    ensures 0.0 <= Ratio(start, end, time) <= 1.0
    ensures time == start.time ==> Ratio(start, end, time) == 0.0
    ensures time == end.time ==> Ratio(start, end, time) == 1.0
  {
    var n, d := (time - start.time) as real, (end.time - start.time) as real;
    assert 0.0 <= n <= d && d > 0.0;
    QuotientBounds(n, d);
  }

  lemma QuotientBounds(n: real, d: real)
    requires 0.0 <= n <= d && d > 0.0
    ensures 0.0 <= n / d <= 1.0
    ensures n == 0.0 ==> n / d == 0.0
    ensures n == d ==> n / d == 1.0
  {}

  /** v lies between a and b, give or take half a unit of rounding. */
  predicate RoundedBetween(a: real, b: real, v: real) {
    (if a <= b then a else b) - HALF_UNIT <= v <= (if a <= b then b else a) + HALF_UNIT
  }

  predicate InBox(a: Vec, b: Vec, p: Vec) {
    RoundedBetween(a.x, b.x, p.x) && RoundedBetween(a.y, b.y, p.y) && RoundedBetween(a.z, b.z, p.z)
  }

  lemma AxisInSegment(a: real, b: real, ratio: real)
    requires 0.0 <= ratio <= 1.0
    ensures RoundedBetween(a, b, Round6(Between(a, b, ratio)))
  {
    BetweenBounds(a, b, ratio);
    Round6Near(Between(a, b, ratio));
    hide Round6;
    hide Between;
  }

  lemma Round6AtBounds()
    ensures Round6(1000000.0) == 1000000.0 && Round6(-1000000.0) == -1000000.0
    ensures Round6(10000.0) == 10000.0 && Round6(-10000.0) == -10000.0
  {}

  lemma AxisInRange(a: real, b: real, ratio: real, bound: real)
    requires 0.0 <= ratio <= 1.0 && 0.0 - bound <= a <= bound && 0.0 - bound <= b <= bound
    requires Round6(bound) == bound && Round6(0.0 - bound) == 0.0 - bound
    ensures 0.0 - bound <= Round6(Between(a, b, ratio)) <= bound
  {
    hide Round6;
    BetweenBounds(a, b, ratio);
    Round6Monotone(0.0 - bound, Between(a, b, ratio));
    Round6Monotone(Between(a, b, ratio), bound);
  }

  /** A point between two points in range is in range, rounded or not. */
  lemma InterpolatedInRange(start: Waypoint, end: Waypoint, time: nat)
    requires start.Valid() && end.Valid() && start.time < end.time && start.time <= time <= end.time
    ensures RoundVec(Interpolated(start, end, time)).InRange()
    ensures InBox(start.position, end.position, RoundVec(Interpolated(start, end, time)))
  {
    hide Between;
    hide Ratio;
    hide RoundedBetween;
    var r := Ratio(start, end, time);
    RatioBounds(start, end, time);
    Round6AtBounds();
    hide Round6;
    AxisInRange(start.position.x, end.position.x, r, 1000000.0);
    AxisInRange(start.position.y, end.position.y, r, 1000000.0);
    AxisInRange(start.position.z, end.position.z, r, 10000.0);
    AxisInSegment(start.position.x, end.position.x, r);
    AxisInSegment(start.position.y, end.position.y, r);
    AxisInSegment(start.position.z, end.position.z, r);
  }

  /**
   * Within a trajectory there is a state exactly when the segment's end gives a velocity or the segment's
   * mean velocity is in range; the actor is then between the ends of the segment, up to rounding.
   */
  lemma PositionInSegment(a: Actor, time: nat)
    requires a.Valid() && a.trajectory != [] && time < a.trajectory[|a.trajectory| - 1].time
    ensures var ws := a.trajectory;
            exists i :: 0 <= i && i + 1 < |ws| && Covers(ws, i, time)
              && (TrajectoryState(a, time).Some? <==>
                  ws[i + 1].velocity.Some? || MeanVelocity(ws[i], ws[i + 1]).InRange())
              && (TrajectoryState(a, time).Some? ==>
                    InBox(ws[i].position, ws[i + 1].position, TrajectoryState(a, time).value.position))
  {
    hide RoundVec;
    hide Interpolated;
    hide MeanVelocity;
    hide InBox;
    SomeSegmentCovers(a.trajectory, time, 0);
    var i := FindSegment(a.trajectory, time, 0).value;
    InterpolatedInRange(a.trajectory[i], a.trajectory[i + 1], time);
    assert Covers(a.trajectory, i, time);
  }

  lemma BetweenEnds(a: real, b: real)
    ensures Between(a, b, 0.0) == a && Between(a, b, 1.0) == b
  {}

  lemma InterpolatedEnds(start: Waypoint, end: Waypoint)
    requires start.time < end.time
    ensures Interpolated(start, end, start.time) == start.position
    ensures Interpolated(start, end, end.time) == end.position
  {
    hide Between;
    RatioBounds(start, end, start.time);
    RatioBounds(start, end, end.time);
    BetweenEnds(start.position.x, end.position.x);
    BetweenEnds(start.position.y, end.position.y);
    BetweenEnds(start.position.z, end.position.z);
    hide Ratio;
  }

  lemma RoundedInRange(v: Vec)
    requires v.InRange()
    ensures RoundVec(v).InRange()
  {
    Round6AtBounds();
    hide Round6;
    Round6Monotone(-1000000.0, v.x);
    Round6Monotone(v.x, 1000000.0);
    Round6Monotone(-1000000.0, v.y);
    Round6Monotone(v.y, 1000000.0);
    Round6Monotone(-10000.0, v.z);
    Round6Monotone(v.z, 10000.0);
  }

  lemma AtRest(p: Vec, v: Vec)
    ensures Moved(p, v, 0) == p
  {}

  /**
   * At the time of every waypoint that has a state the actor is at that waypoint, rounded. The last waypoint
   * always has one; an inner waypoint has one unless the segment before it is too fast and gives no velocity.
   */
  lemma HitsWaypoints(a: Actor, k: nat)
    requires a.Valid() && k < |a.trajectory|
    ensures var ws, s := a.trajectory, TrajectoryState(a, a.trajectory[k].time);
            && (s.Some? ==> s.value.position == RoundVec(ws[k].position))
            && (k == |ws| - 1 ==> s.Some?)
            && (0 < k < |ws| - 1 ==> (s.Some? <==> ws[k].velocity.Some? || MeanVelocity(ws[k - 1], ws[k]).InRange()))
  {
    hide RoundVec;
    hide Interpolated;
    hide MeanVelocity;
    hide Moved;
    var ws := a.trajectory;
    RoundedInRange(ws[k].position);
    if k < |ws| - 1 {
      SomeSegmentCovers(ws, ws[k].time, 0);
      var i := FindSegment(ws, ws[k].time, 0).value;
      InterpolatedEnds(ws[i], ws[i + 1]);
      assert i == k || i + 1 == k;
      if k > 0 {
        FirstCover(ws, k);
      }
    } else {
      AtRest(ws[k].position, if ws[k].velocity.Some? then ws[k].velocity.value else Vec(0.0, 0.0, 0.0));
    }
  }

  /** At an inner waypoint the search stops at the segment that ends there. */
  lemma FirstCover(ws: seq<Waypoint>, k: nat)
    requires forall i, j :: 0 <= i < j < |ws| ==> ws[i].time < ws[j].time
    requires 0 < k < |ws|
    ensures FindSegment(ws, ws[k].time, 0) == Some(k - 1)
  {
    SearchReaches(ws, k, 0);
  }

  lemma {:induction false} SearchReaches(ws: seq<Waypoint>, k: nat, from: nat)
    requires forall i, j :: 0 <= i < j < |ws| ==> ws[i].time < ws[j].time
    requires from < k < |ws|
    ensures FindSegment(ws, ws[k].time, from) == Some(k - 1)
    decreases k - from
  {
    if from < k - 1 {
      SearchReaches(ws, k, from + 1);
    }
  }

  // ---------- advancing ----------

  /** The actor passes validation when loaded, and so does every vector that advancing it to `time` builds. */
  predicate CanAdvance(a: Actor, time: nat) {
    a.Loads() && (a.trajectory != [] ==> TrajectoryState(a, time).Some?)
  }

  /** The actor after an advance by `ms` to `time`. Without a trajectory the new coordinates are not checked. */
  function Advanced(a: Actor, ms: nat, time: nat): Actor
    requires CanAdvance(a, time)
  {
    if a.trajectory != [] then
      var s := TrajectoryState(a, time).value;
      a.(position := s.position, velocity := s.velocity)
    else a.(position := RoundVec(Moved(a.position, a.velocity, ms)))
  }

  datatype World = World(actors: seq<Actor>, revision: nat, time: nat)

  datatype Outcome = Accepted | Stale | OutOfRange

  datatype Attempt = Attempt(world: World, outcome: Outcome)

  predicate AllAdvance(w: World, ms: nat) {
    forall k :: 0 <= k < |w.actors| ==> CanAdvance(w.actors[k], w.time + ms)
  }

  function AdvancedWorld(w: World, ms: nat): World
    requires AllAdvance(w, ms)
  {
    World(seq(|w.actors|, i requires 0 <= i < |w.actors| => Advanced(w.actors[i], ms, w.time + ms)),
          w.revision + 1, w.time + ms)
  }

  /** A refused advance leaves the scene as it is. */
  function Try(w: World, expectedRevision: nat, ms: nat): Attempt {
    if expectedRevision != w.revision then Attempt(w, Stale)
    else if !AllAdvance(w, ms) then Attempt(w, OutOfRange)
    else Attempt(AdvancedWorld(w, ms), Accepted)
  }

  class Scene {
    var actors: seq<Actor>
    var revision: nat
    var simulationTime: nat

    constructor (actors: seq<Actor>)
      requires AllLoad(actors)
      ensures View() == World(actors, 1, 0)
    {
      this.actors := actors;
      revision, simulationTime := 1, 0;
    }

    function View(): World
      reads this
    {
      World(actors, revision, simulationTime)
    }

    method Advance(expectedRevision: nat, duration: nat) returns (outcome: Outcome)
      modifies this
      ensures Attempt(View(), outcome) == Try(old(View()), expectedRevision, duration)
    {
      hide Advanced;
      hide CanAdvance;
      if revision != expectedRevision {
        return Stale;
      }
      var targetTime := simulationTime + duration;
      var advanced: seq<Actor> := [];
      ghost var w := View();
      for k := 0 to |actors|
        invariant View() == w && |advanced| == k
        invariant forall i :: 0 <= i < k ==>
          CanAdvance(w.actors[i], w.time + duration)
              && advanced[i] == Advanced(w.actors[i], duration, w.time + duration)
      {
        var actor := AdvanceActor(actors[k], duration, targetTime);
        if actor.None? {
          return OutOfRange;
        }
        advanced := advanced + [actor.value];
      }
      assert advanced == AdvancedWorld(w, duration).actors;
      actors := advanced;
      revision := revision + 1;
      simulationTime := simulationTime + duration;
      return Accepted;
    }
  }

  /** Loads and advances one actor; none when validation fails on the way. */
  method AdvanceActor(actor: Actor, duration: nat, targetTime: nat) returns (after: Option<Actor>)
    ensures after.Some? <==> CanAdvance(actor, targetTime)
    ensures after.Some? ==> after.value == Advanced(actor, duration, targetTime)
  {
    if !actor.Loads() {
      return None;
    }
    if actor.trajectory != [] {
      var state := TrajectoryState(actor, targetTime);
      return if state.None? then None
             else Some(actor.(position := state.value.position, velocity := state.value.velocity));
    }
    return Some(actor.(position := Vec(
      Round6(Displaced(actor.position.x, actor.velocity.x, duration)),
      Round6(Displaced(actor.position.y, actor.velocity.y, duration)),
      Round6(Displaced(actor.position.z, actor.velocity.z, duration)))));
  }

  /** What advancing an actor to the time takes, besides its own stored vectors being in range. */
  predicate TrajectoryPermits(a: Actor, time: nat)
    requires a.Valid()
  {
    a.trajectory == [] ||
    var ws := a.trajectory;
    var final := ws[|ws| - 1];
    if time >= final.time then
      final.velocity.None? || RoundVec(Moved(final.position, final.velocity.value, time - final.time)).InRange()
    else
      exists i :: 0 <= i && i + 1 < |ws| && FindSegment(ws, time, 0) == Some(i)
        && (ws[i + 1].velocity.Some? || MeanVelocity(ws[i], ws[i + 1]).InRange())
  }

  lemma CanAdvanceExactly(a: Actor, time: nat)
    ensures CanAdvance(a, time) <==> a.Loads() && TrajectoryPermits(a, time)
  {
    hide RoundVec;
    hide Interpolated;
    hide MeanVelocity;
    hide Vec.InRange;
    if a.Loads() && a.trajectory != [] {
      var ws := a.trajectory;
      var final := ws[|ws| - 1];
      if time >= final.time {
        AtRestLonger(final.position, time - final.time);
        RoundedInRange(final.position);
      } else {
        SomeSegmentCovers(ws, time, 0);
        var i := FindSegment(ws, time, 0).value;
        InterpolatedInRange(ws[i], ws[i + 1], time);
      }
    }
  }

  lemma AtRestLonger(p: Vec, ms: nat)
    ensures Moved(p, Vec(0.0, 0.0, 0.0), ms) == p
  {}

  /**
   * An advance is accepted exactly when the revision is current, every stored actor is in range, and on every
   * trajectory the extrapolated position, or the mean velocity of a segment that gives none, is in range. After it,
   * exactly the actors that left the range without a trajectory no longer load.
   */
  lemma AcceptsExactly(w: World, expectedRevision: nat, ms: nat)
    ensures var t := Try(w, expectedRevision, ms);
            && (t.outcome.Accepted? <==>
                  && expectedRevision == w.revision
                  && forall k :: 0 <= k < |w.actors| ==>
                       w.actors[k].Loads() && TrajectoryPermits(w.actors[k], w.time + ms))
            && (!t.outcome.Accepted? ==> t.world == w)
            && (t.outcome.Accepted? ==> |t.world.actors| == |w.actors| && forall k :: 0 <= k < |w.actors| ==>
                  (t.world.actors[k].Loads() <==>
                     w.actors[k].trajectory != []
                         || RoundVec(Moved(w.actors[k].position, w.actors[k].velocity, ms)).InRange()))
  {
    hide CanAdvance;
    hide Advanced;
    hide TrajectoryPermits;
    forall k | 0 <= k < |w.actors|
      ensures CanAdvance(w.actors[k], w.time + ms) <==>
                w.actors[k].Loads() && TrajectoryPermits(w.actors[k], w.time + ms)
      ensures CanAdvance(w.actors[k], w.time + ms) ==>
              (Advanced(w.actors[k], ms, w.time + ms).Loads() <==>
                 w.actors[k].trajectory != []
                     || RoundVec(Moved(w.actors[k].position, w.actors[k].velocity, ms)).InRange())
    {
      CanAdvanceExactly(w.actors[k], w.time + ms);
      if CanAdvance(w.actors[k], w.time + ms) {
        LoadsAfter(w.actors[k], ms, w.time + ms);
      }
    }
  }

  lemma LoadsAfter(a: Actor, ms: nat, time: nat)
    requires CanAdvance(a, time)
    ensures Advanced(a, ms, time).Loads() <==>
              a.trajectory != [] || RoundVec(Moved(a.position, a.velocity, ms)).InRange()
  {
    hide RoundVec;
    hide Interpolated;
    hide MeanVelocity;
    hide Moved;
    if a.trajectory != [] && time < a.trajectory[|a.trajectory| - 1].time {
      SomeSegmentCovers(a.trajectory, time, 0);
    }
  }

  // ---------- what refuses a scene ----------

  function Still(): Vec {
    Vec(0.0, 0.0, 0.0)
  }

  /** 20 km in 10 ms, then at rest; the waypoints give no velocities. */
  function Jump(): seq<Waypoint> {
    [Waypoint(0, Still(), None), Waypoint(10, Vec(20000.0, 0.0, 0.0), None), Waypoint(20, Vec(20000.0, 0.0, 0.0), None)]
  }

  function Jumping(): World {
    World([Actor("jumping", Vehicle, Still(), Still(), 2.0, Jump())], 1, 0)
  }

  lemma JumpTooFast()
    ensures MeanVelocity(Jump()[0], Jump()[1]).x == 2000000.0
  {
    assert (20000.0 - 0.0) * 1000.0 / 10.0 == 2000000.0;
    assert Round6(2000000.0) == 2000000.0;
  }

  lemma JumpSearch()
    ensures FindSegment(Jump(), 5, 0) == Some(0)
  {
    assert Covers(Jump(), 0, 5);
  }

  function JumpingActor(): Actor {
    Jumping().actors[0]
  }

  lemma JumpingValid()
    ensures JumpingActor().Loads() && JumpingActor().trajectory == Jump() && Jump()[2].time == 20
  {}

  lemma JumpRefused()
    ensures !CanAdvance(JumpingActor(), 5)
  {
    hide *;
    JumpingValid();
    CanAdvanceExactly(JumpingActor(), 5);
    JumpNotPermitted();
  }

  lemma JumpNotPermitted()
    ensures JumpingActor().Valid() && !TrajectoryPermits(JumpingActor(), 5)
  {
    JumpTooFast();
    JumpSearch();
    hide FindSegment;
    hide MeanVelocity;
    hide RoundVec;
  }

  lemma JumpPassed()
    ensures CanAdvance(JumpingActor(), 20)
  {
    JumpingValid();
    CanAdvanceExactly(JumpingActor(), 20);
    hide CanAdvance;
    hide FindSegment;
    hide MeanVelocity;
    hide RoundVec;
  }

  /** A schema-valid scene whose advance into a fast segment fails, while advancing past the segment succeeds. */
  lemma FastSegmentRefused()
    ensures AllLoad(Jumping().actors)
    ensures Try(Jumping(), 1, 5) == Attempt(Jumping(), OutOfRange)
    ensures Try(Jumping(), 1, 20).outcome.Accepted?
  {
    JumpingValid();
    JumpRefused();
    JumpPassed();
    hide CanAdvance;
    hide Advanced;
    hide Actor.Loads;
    assert !CanAdvance(Jumping().actors[0], Jumping().time + 5);
  }

  /** 10 m before the edge of the range, at 30 m/s. */
  function Departing(): World {
    World([Actor("departing", Vehicle, Vec(999990.0, 0.0, 0.0), Vec(30.0, 0.0, 0.0), 2.0, [])], 1, 0)
  }

  /** An actor may leave the range unnoticed, so that 2 s pass in one advance but not in two. */
  lemma EdgeCrossed()
    ensures AllLoad(Departing().actors)
    ensures AllAccepted(Departing(), [2000]) && AllAccepted(Departing(), [1000])
            && !AllAccepted(Departing(), [1000, 1000])
  {
    var w := Departing();
    assert Round6(1000020.0) == 1000020.0;
    assert Displaced(999990.0, 30.0, 1000) == 1000020.0;
    assert AdvancedBy(w, [1000]).actors[0].position.x == 1000020.0 by {
      assert [1000][..0] == [];
    }
    assert [2000][..0] == [] && [1000, 1000][..1] == [1000];
  }

  /** A request with the revision it expects; any revision, because updating the scene's context raises it. */
  datatype Request = Request(expectedRevision: nat, duration: nat)

  function Served(w: World, rs: seq<Request>): World {
    if rs == [] then w else
      var last := rs[|rs| - 1];
      Try(Served(w, rs[..|rs| - 1]), last.expectedRevision, last.duration).world
  }

  /** Once some actor has left the range, no advance of the scene is ever accepted again, and it never changes. */
  lemma {:induction false} LostForEver(w: World, rs: seq<Request>, k: nat)
    requires k < |w.actors| && !w.actors[k].Loads()
    ensures Served(w, rs) == w
    ensures forall r: Request :: !Try(Served(w, rs), r.expectedRevision, r.duration).outcome.Accepted?
    ensures forall revision: nat, time: nat, r: Request ::
              !Try(World(w.actors, revision, time), r.expectedRevision, r.duration).outcome.Accepted?
  {
    hide Advanced;
    if rs != [] {
      LostForEver(w, rs[..|rs| - 1], k);
    }
    forall revision: nat, time: nat, r: Request
      ensures !Try(World(w.actors, revision, time), r.expectedRevision, r.duration).outcome.Accepted?
    {
      assert !CanAdvance(w.actors[k], time + r.duration);
    }
    assert w == World(w.actors, w.revision, w.time);
  }

  // ---------- many advances ----------

  /** The world after attempting each of the durations in turn, always at the current revision. */
  function AdvancedBy(w: World, ds: seq<nat>): World {
    if ds == [] then w else
      var before := AdvancedBy(w, ds[..|ds| - 1]);
      Try(before, before.revision, ds[|ds| - 1]).world
  }

  predicate AllAccepted(w: World, ds: seq<nat>) {
    ds == [] ||
    var before := AdvancedBy(w, ds[..|ds| - 1]);
    AllAccepted(w, ds[..|ds| - 1]) && Try(before, before.revision, ds[|ds| - 1]).outcome.Accepted?
  }

  lemma LastAccepted(w: World, ds: seq<nat>)
    requires ds != [] && AllAccepted(w, ds)
    ensures AllAccepted(w, ds[..|ds| - 1])
    ensures var before := AdvancedBy(w, ds[..|ds| - 1]);
            AllAdvance(before, ds[|ds| - 1]) && AdvancedBy(w, ds) == AdvancedWorld(before, ds[|ds| - 1])
  {
    hide CanAdvance;
    hide Advanced;
  }

  lemma AdvancedOne(w: World, ms: nat, k: nat)
    requires AllAdvance(w, ms) && k < |w.actors|
    ensures |AdvancedWorld(w, ms).actors| == |w.actors|
    ensures CanAdvance(w.actors[k], w.time + ms)
    ensures AdvancedWorld(w, ms).actors[k] == Advanced(w.actors[k], ms, w.time + ms)
    ensures AdvancedWorld(w, ms).time == w.time + ms && AdvancedWorld(w, ms).revision == w.revision + 1
  {
    hide CanAdvance;
    hide Advanced;
  }

  lemma AdvancedOnTrajectory(w: Actor, a: Actor, ms: nat, time: nat)
    requires w.Valid() && w.trajectory != [] && a == w.(position := a.position, velocity := a.velocity)
    requires CanAdvance(a, time)
    ensures TrajectoryState(w, time).Some?
    ensures var s := TrajectoryState(w, time).value;
            Advanced(a, ms, time) == w.(position := s.position, velocity := s.velocity)
  {
    TrajectoryForgets(w, time, a.position, a.velocity);
    hide TrajectoryState;
  }

  /** After accepted advances, time has passed by their sum and a trajectory actor is where its trajectory puts it. */
  lemma {:induction false} TrajectoryOnTime(w: World, ds: seq<nat>, k: nat)
    requires AllAccepted(w, ds) && k < |w.actors| && w.actors[k].Valid() && w.actors[k].trajectory != []
    ensures var after, time := AdvancedBy(w, ds), w.time + Sum(ds);
            && after.time == time && after.revision == w.revision + |ds| && |after.actors| == |w.actors|
            && (ds != [] ==>
                  && TrajectoryState(w.actors[k], time).Some?
                  && var s := TrajectoryState(w.actors[k], time).value;
                     after.actors[k] == w.actors[k].(position := s.position, velocity := s.velocity))
            && after.actors[k] ==
                 w.actors[k].(position := after.actors[k].position, velocity := after.actors[k].velocity)
  {
    hide TrajectoryState;
    hide CanAdvance;
    hide Advanced;
    hide AllAdvance;
    hide AdvancedWorld;
    if ds != [] {
      var last := |ds| - 1;
      LastAccepted(w, ds);
      TrajectoryOnTime(w, ds[..last], k);
      var before := AdvancedBy(w, ds[..last]);
      AdvancedOne(before, ds[last], k);
      AdvancedOnTrajectory(w.actors[k], before.actors[k], ds[last], w.time + Sum(ds));
    }
  }

  /**
   * Path independence: however the same total time is split into accepted advances, a trajectory actor ends up in
   * the same state.
   */
  lemma SplitIrrelevant(w: World, ds: seq<nat>, es: seq<nat>, k: nat)
    requires AllAccepted(w, ds) && AllAccepted(w, es)
    requires k < |w.actors| && w.actors[k].Valid() && w.actors[k].trajectory != []
    requires ds != [] && es != [] && Sum(ds) == Sum(es)
    ensures |AdvancedBy(w, ds).actors| == |AdvancedBy(w, es).actors| == |w.actors|
    ensures AdvancedBy(w, ds).actors[k] == AdvancedBy(w, es).actors[k]
    ensures AdvancedBy(w, ds).time == AdvancedBy(w, es).time
  {
    hide TrajectoryState;
    hide AdvancedBy;
    hide AllAccepted;
    hide Sum;
    TrajectoryOnTime(w, ds, k);
    TrajectoryOnTime(w, es, k);
  }

  ghost predicate AllOnTrajectories(w: World) {
    forall k :: 0 <= k < |w.actors| ==> w.actors[k].Loads() && w.actors[k].trajectory != []
  }

  ghost predicate StatesAt(w: World, time: nat)
    requires AllOnTrajectories(w)
  {
    forall k :: 0 <= k < |w.actors| ==> TrajectoryState(w.actors[k], time).Some?
  }

  /** The time at which the j-th advance ends. */
  function StopTime(w: World, ds: seq<nat>, j: nat): nat
    requires j <= |ds|
  {
    w.time + Sum(ds[..j])
  }

  /** Every trajectory has a state at every time the advances stop at. */
  ghost predicate StatesAtStops(w: World, ds: seq<nat>)
    requires AllOnTrajectories(w)
  {
    forall j :: 0 < j <= |ds| ==> StatesAt(w, StopTime(w, ds, j))
  }

  lemma SameStop(w: World, ds: seq<nat>, k: nat, j: nat)
    requires j <= k <= |ds|
    ensures StopTime(w, ds[..k], j) == StopTime(w, ds, j)
  {
    assert ds[..k][..j] == ds[..j];
  }

  lemma FinalStop(w: World, ds: seq<nat>)
    ensures StopTime(w, ds, |ds|) == w.time + Sum(ds)
  {
    assert ds[..|ds|] == ds;
  }

  lemma OneMoreStop(w: World, ds: seq<nat>)
    requires AllOnTrajectories(w) && ds != []
    ensures StatesAtStops(w, ds) <==> StatesAtStops(w, ds[..|ds| - 1]) && StatesAt(w, w.time + Sum(ds))
  {
    hide StatesAt;
    hide AllOnTrajectories;
    hide StopTime;
    hide Sum;
    var init := ds[..|ds| - 1];
    FinalStop(w, ds);
    if StatesAtStops(w, ds) {
      forall j | 0 < j <= |init| ensures StatesAt(w, StopTime(w, init, j)) {
        SameStop(w, ds, |init|, j);
      }
    }
    if StatesAtStops(w, init) && StatesAt(w, w.time + Sum(ds)) {
      forall j | 0 < j <= |ds| ensures StatesAt(w, StopTime(w, ds, j)) {
        if j < |ds| {
          SameStop(w, ds, |init|, j);
        }
      }
    }
  }

  lemma LastAttempt(w: World, ds: seq<nat>)
    requires ds != [] && AllAccepted(w, ds[..|ds| - 1])
    ensures AllAccepted(w, ds) <==> AllAdvance(AdvancedBy(w, ds[..|ds| - 1]), ds[|ds| - 1])
  {
    hide AllAdvance;
    hide AdvancedWorld;
  }

  lemma LastStop(w: World, ds: seq<nat>)
    requires AllOnTrajectories(w) && ds != [] && AllAccepted(w, ds[..|ds| - 1])
    ensures AllAccepted(w, ds) <==> StatesAt(w, w.time + Sum(ds))
  {
    hide TrajectoryState;
    hide CanAdvance;
    hide AdvancedBy;
    hide AllAccepted;
    var init := ds[..|ds| - 1];
    var before := AdvancedBy(w, init);
    LastAttempt(w, ds);
    SameCount(w, init);
    forall k | 0 <= k < |w.actors|
      ensures CanAdvance(before.actors[k], before.time + ds[|ds| - 1]) <==>
              TrajectoryState(w.actors[k], w.time + Sum(ds)).Some?
    {
      NextStop(w, init, k, w.time + Sum(ds));
    }
  }

  /**
   * Where all actors follow trajectories, a split is accepted exactly when every trajectory has a state at each of
   * its stops.
   */
  lemma {:induction false} SplitAcceptedExactly(w: World, ds: seq<nat>)
    requires AllOnTrajectories(w)
    ensures AllAccepted(w, ds) <==> StatesAtStops(w, ds)
  {
    hide TrajectoryState;
    hide AllOnTrajectories;
    hide AdvancedBy;
    hide StatesAt;
    if ds != [] {
      SplitAcceptedExactly(w, ds[..|ds| - 1]);
      OneMoreStop(w, ds);
      if AllAccepted(w, ds[..|ds| - 1]) {
        LastStop(w, ds);
      }
    }
  }

  lemma {:induction false} SameCount(w: World, ds: seq<nat>)
    ensures |AdvancedBy(w, ds).actors| == |w.actors|
  {
    hide CanAdvance;
    hide Advanced;
    if ds != [] {
      SameCount(w, ds[..|ds| - 1]);
    }
  }

  lemma NextStop(w: World, ds: seq<nat>, k: nat, time: nat)
    requires AllOnTrajectories(w) && AllAccepted(w, ds) && k < |w.actors|
    ensures |AdvancedBy(w, ds).actors| == |w.actors| && AdvancedBy(w, ds).time == w.time + Sum(ds)
    ensures CanAdvance(AdvancedBy(w, ds).actors[k], time) <==> TrajectoryState(w.actors[k], time).Some?
  {
    TrajectoryOnTime(w, ds, k);
    var a := AdvancedBy(w, ds).actors[k];
    TrajectoryForgets(w.actors[k], time, a.position, a.velocity);
    StaysLoadable(w, ds, k);
    hide TrajectoryState;
    hide AdvancedBy;
  }

  lemma StaysLoadable(w: World, ds: seq<nat>, k: nat)
    requires AllOnTrajectories(w) && AllAccepted(w, ds) && k < |w.actors| == |AdvancedBy(w, ds).actors|
    ensures AdvancedBy(w, ds).actors[k].Loads()
  {
    hide TrajectoryState;
    hide Advanced;
    hide AdvancedBy;
    hide AllAccepted;
    hide CanAdvance;
    hide AllAdvance;
    hide AdvancedWorld;
    assert w.actors[k].Valid();
    hide Actor.Loads;
    if ds == [] {
      Unmoved(w);
    } else {
      var last := |ds| - 1;
      LastAccepted(w, ds);
      TrajectoryOnTime(w, ds[..last], k);
      var before := AdvancedBy(w, ds[..last]);
      AdvancedOne(before, ds[last], k);
      LoadsAfter(before.actors[k], ds[last], before.time + ds[last]);
    }
  }

  lemma Unmoved(w: World)
    ensures AdvancedBy(w, []) == w
  {}

  predicate Within(x: real, y: real, distance: real) {
    y - distance <= x <= y + distance
  }

  predicate WithinVec(p: Vec, q: Vec, distance: real) {
    Within(p.x, q.x, distance) && Within(p.y, q.y, distance) && Within(p.z, q.z, distance)
  }

  lemma DisplacedAdds(p: real, start: real, v: real, before: nat, ms: nat)
    ensures Displaced(start, v, before + ms) == Displaced(start, v, before) + (Displaced(p, v, ms) - p)
  {
    var a, b := before as real / 1000.0, ms as real / 1000.0;
    assert (before + ms) as real / 1000.0 == a + b;
    DistributeReal(v, a, b);
  }

  lemma AxisDrift(p: real, start: real, v: real, before: nat, ms: nat, distance: real)
    requires Within(p, Displaced(start, v, before), distance)
    ensures Within(Round6(Displaced(p, v, ms)), Displaced(start, v, before + ms), distance + HALF_UNIT)
  {
    hide Displaced;
    hide Round6;
    DisplacedAdds(p, start, v, before, ms);
    Round6Near(Displaced(p, v, ms));
  }

  lemma DistributeReal(v: real, a: real, b: real)
    ensures v * (a + b) == v * a + v * b
  {}

  /** After n accepted advances a constant-velocity actor is within n half units of the exact position. */
  lemma {:induction false} DriftBounded(w: World, ds: seq<nat>, k: nat)
    requires AllAccepted(w, ds) && k < |w.actors| && w.actors[k].trajectory == []
    ensures |AdvancedBy(w, ds).actors| == |w.actors|
    ensures var a, after := w.actors[k], AdvancedBy(w, ds).actors[k];
            && after == a.(position := after.position)
            && WithinVec(after.position, Moved(a.position, a.velocity, Sum(ds)), |ds| as real * HALF_UNIT)
  {
    hide Round6;
    hide WithinVec;
    hide Moved;
    hide CanAdvance;
    hide AllAdvance;
    hide AdvancedWorld;
    if ds == [] {
      StandsStill(w.actors[k].position, w.actors[k].velocity);
    } else {
      var last := |ds| - 1;
      LastAccepted(w, ds);
      DriftBounded(w, ds[..last], k);
      var before, a := AdvancedBy(w, ds[..last]).actors[k], w.actors[k];
      AdvancedOne(AdvancedBy(w, ds[..last]), ds[last], k);
      DriftStep(before.position, a.position, a.velocity, Sum(ds[..last]), ds[last], last);
    }
  }

  lemma StandsStill(p: Vec, v: Vec)
    ensures WithinVec(p, Moved(p, v, 0), 0.0)
  {}

  lemma DriftStep(p: Vec, start: Vec, v: Vec, before: nat, ms: nat, n: nat)
    requires WithinVec(p, Moved(start, v, before), n as real * HALF_UNIT)
    ensures WithinVec(RoundVec(Moved(p, v, ms)), Moved(start, v, before + ms), (n + 1) as real * HALF_UNIT)
  {
    hide Displaced;
    hide Round6;
    hide Within;
    AxisDrift(p.x, start.x, v.x, before, ms, n as real * HALF_UNIT);
    AxisDrift(p.y, start.y, v.y, before, ms, n as real * HALF_UNIT);
    AxisDrift(p.z, start.z, v.z, before, ms, n as real * HALF_UNIT);
    assert (n + 1) as real * HALF_UNIT == n as real * HALF_UNIT + HALF_UNIT;
  }
}

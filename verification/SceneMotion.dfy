/** How actors move in accepted advances, in numbers: linear on segments, at constant velocity elsewhere. */
module SceneMotion {
  import opened AdasSchemas
  import opened Basics
  import opened Rounding
  import opened WorldScene

  // ---------- one coordinate ----------

  /** x is at the time t on the line from a at t0 to b at t1. */
  ghost predicate OnLine(a: real, b: real, t0: nat, t1: nat, t: nat, x: real) {
    (t1 - t0) as real * (x - a) == (t - t0) as real * (b - a)
  }

  /** v is the displacement from a to b per second, taken from t0 to t1, in milliseconds. */
  ghost predicate PerSecond(a: real, b: real, t0: nat, t1: nat, v: real) {
    (t1 - t0) as real * v == 1000.0 * (b - a)
  }

  /** x is reached from p at speed v after the given number of milliseconds. */
  ghost predicate Reached(p: real, v: real, ms: nat, x: real) {
    1000.0 * (x - p) == v * ms as real
  }

  ghost predicate Interpolates(a: real, b: real, t0: nat, t1: nat, t: nat, y: real) {
    exists x :: OnLine(a, b, t0, t1, t, x) && SixDecimals(y, x)
  }

  ghost predicate Averages(a: real, b: real, t0: nat, t1: nat, y: real) {
    exists v :: PerSecond(a, b, t0, t1, v) && SixDecimals(y, v)
  }

  ghost predicate Extrapolates(p: real, v: real, ms: nat, y: real) {
    exists x :: Reached(p, v, ms, x) && SixDecimals(y, x)
  }

  // ---------- all coordinates ----------

  ghost predicate InterpolatesVec(start: Waypoint, end: Waypoint, t: nat, p: Vec) {
    var a, b := start.position, end.position;
    && Interpolates(a.x, b.x, start.time, end.time, t, p.x)
    && Interpolates(a.y, b.y, start.time, end.time, t, p.y)
    && Interpolates(a.z, b.z, start.time, end.time, t, p.z)
  }

  ghost predicate AveragesVec(start: Waypoint, end: Waypoint, v: Vec) {
    var a, b := start.position, end.position;
    && Averages(a.x, b.x, start.time, end.time, v.x)
    && Averages(a.y, b.y, start.time, end.time, v.y)
    && Averages(a.z, b.z, start.time, end.time, v.z)
  }

  ghost predicate ExtrapolatesVec(p: Vec, v: Vec, ms: nat, q: Vec) {
    Extrapolates(p.x, v.x, ms, q.x) && Extrapolates(p.y, v.y, ms, q.y) && Extrapolates(p.z, v.z, ms, q.z)
  }

  // ---------- what the code computes ----------

  lemma BetweenOnLine(a: real, b: real, t0: nat, t1: nat, t: nat)
    requires t0 < t1
    ensures OnLine(a, b, t0, t1, t, Between(a, b, (t - t0) as real / (t1 - t0) as real))
  {
    var n, d := (t - t0) as real, (t1 - t0) as real;
    var r := n / d;
    assert r * d == n;
    assert d * ((b - a) * r) == (r * d) * (b - a);
  }

  lemma InterpolatedExactly(start: Waypoint, end: Waypoint, t: nat)
    requires start.time < end.time
    ensures InterpolatesVec(start, end, t, RoundVec(Interpolated(start, end, t)))
  {
    hide OnLine;
    hide Between;
    hide SixDecimals;
    hide Round6;
    var a, b, p := start.position, end.position, Interpolated(start, end, t);
    BetweenOnLine(a.x, b.x, start.time, end.time, t);
    BetweenOnLine(a.y, b.y, start.time, end.time, t);
    BetweenOnLine(a.z, b.z, start.time, end.time, t);
    Round6Exactly(p.x, Round6(p.x));
    Round6Exactly(p.y, Round6(p.y));
    Round6Exactly(p.z, Round6(p.z));
  }

  lemma MeanPerSecond(a: real, b: real, t0: nat, t1: nat)
    requires t0 < t1
    ensures Averages(a, b, t0, t1, Round6((b - a) * 1000.0 / (t1 - t0) as real))
  {
    hide SixDecimals;
    hide Round6;
    var d := (t1 - t0) as real;
    var v := (b - a) * 1000.0 / d;
    assert d * v == 1000.0 * (b - a);
    assert PerSecond(a, b, t0, t1, v);
    Round6Exactly(v, Round6(v));
  }

  lemma MeanExactly(start: Waypoint, end: Waypoint)
    requires start.time < end.time
    ensures AveragesVec(start, end, MeanVelocity(start, end))
  {
    hide Averages;
    hide Round6;
    var a, b := start.position, end.position;
    MeanPerSecond(a.x, b.x, start.time, end.time);
    MeanPerSecond(a.y, b.y, start.time, end.time);
    MeanPerSecond(a.z, b.z, start.time, end.time);
  }

  lemma DisplacedReached(p: real, v: real, ms: nat)
    ensures Reached(p, v, ms, Displaced(p, v, ms))
  {
    var s := ms as real / 1000.0;
    assert 1000.0 * (v * s) == v * (1000.0 * s);
  }

  lemma MovedExactly(p: Vec, v: Vec, ms: nat)
    ensures ExtrapolatesVec(p, v, ms, RoundVec(Moved(p, v, ms)))
  {
    hide Reached;
    hide Displaced;
    hide SixDecimals;
    hide Round6;
    var q := Moved(p, v, ms);
    DisplacedReached(p.x, v.x, ms);
    DisplacedReached(p.y, v.y, ms);
    DisplacedReached(p.z, v.z, ms);
    Round6Exactly(q.x, Round6(q.x));
    Round6Exactly(q.y, Round6(q.y));
    Round6Exactly(q.z, Round6(q.z));
  }

  // ---------- trajectories ----------

  /** i is the segment of the time: the first one that contains it. */
  predicate SegmentOf(ws: seq<Waypoint>, i: nat, t: nat) {
    i + 1 < |ws| && ws[i].time <= t <= ws[i + 1].time && (i == 0 || ws[i].time < t)
  }

  /** The actor is on its trajectory where the time puts it, with the velocity it has there. */
  ghost predicate OnTrajectory(ws: seq<Waypoint>, t: nat, a: Actor) {
    if ws == [] then false
    else if ws[|ws| - 1].time <= t then AfterLast(ws[|ws| - 1], t, a)
    else exists i: nat :: SegmentOf(ws, i, t) && OnSegment(ws[i], ws[i + 1], t, a)
  }

  ghost predicate OnSegment(start: Waypoint, end: Waypoint, t: nat, a: Actor) {
    && InterpolatesVec(start, end, t, a.position)
    && (if end.velocity.Some? then a.velocity == end.velocity.value else AveragesVec(start, end, a.velocity))
  }

  ghost predicate AfterLast(last: Waypoint, t: nat, a: Actor)
    requires last.time <= t
  {
    && a.velocity == (if last.velocity.Some? then last.velocity.value else Vec(0.0, 0.0, 0.0))
    && ExtrapolatesVec(last.position, a.velocity, t - last.time, a.position)
  }

  lemma {:induction false} FirstSegment(ws: seq<Waypoint>, t: nat, from: nat)
    requires forall i, j :: 0 <= i < j < |ws| ==> ws[i].time < ws[j].time
    requires from < |ws| && ws[from].time <= t < ws[|ws| - 1].time && (from == 0 || ws[from].time < t)
    ensures FindSegment(ws, t, from).Some? && SegmentOf(ws, FindSegment(ws, t, from).value, t)
    decreases |ws| - from
  {
    if t > ws[from + 1].time {
      FirstSegment(ws, t, from + 1);
    }
  }

  lemma StateOnTrajectory(a: Actor, t: nat, after: Actor)
    requires a.Valid() && a.trajectory != [] && TrajectoryState(a, t).Some?
    requires var s := TrajectoryState(a, t).value; after.position == s.position && after.velocity == s.velocity
    ensures OnTrajectory(a.trajectory, t, after)
  {
    hide RoundVec;
    hide Interpolated;
    hide MeanVelocity;
    hide Moved;
    hide InterpolatesVec;
    hide AveragesVec;
    hide ExtrapolatesVec;
    hide Vec.InRange;
    var ws := a.trajectory;
    var last := ws[|ws| - 1];
    if t >= last.time {
      MovedExactly(last.position, after.velocity, t - last.time);
    } else {
      FirstSegment(ws, t, 0);
      var i := FindSegment(ws, t, 0).value;
      InterpolatedExactly(ws[i], ws[i + 1], t);
      MeanExactly(ws[i], ws[i + 1]);
      assert OnSegment(ws[i], ws[i + 1], t, after);
    }
  }

  /**
   * After any accepted advances an actor with a trajectory is where the linear interpolation of the segment of the
   * time puts it, or past its end the motion at the final velocity, rounded to six decimals. It has the velocity
   * given at the end of the segment, or else the displacement per second on the segment.
   */
  lemma TrajectoryMotion(w: World, ds: seq<nat>, k: nat)
    requires AllAccepted(w, ds) && ds != []
    requires k < |w.actors| && w.actors[k].Valid() && w.actors[k].trajectory != []
    ensures |AdvancedBy(w, ds).actors| == |w.actors|
    ensures var after := AdvancedBy(w, ds).actors[k];
            && OnTrajectory(w.actors[k].trajectory, w.time + Sum(ds), after)
            && after == w.actors[k].(position := after.position, velocity := after.velocity)
  {
    hide TrajectoryState;
    hide OnTrajectory;
    hide AdvancedBy;
    hide AllAccepted;
    TrajectoryOnTime(w, ds, k);
    StateOnTrajectory(w.actors[k], w.time + Sum(ds), AdvancedBy(w, ds).actors[k]);
  }

  // ---------- constant velocity ----------

  /** An accepted advance moves an actor without a trajectory at its velocity, rounded to six decimals. */
  lemma ConstantMotion(w: World, revision: nat, ms: nat, k: nat)
    requires Try(w, revision, ms).outcome.Accepted? && k < |w.actors| && w.actors[k].trajectory == []
    ensures |Try(w, revision, ms).world.actors| == |w.actors|
    ensures var a, after := w.actors[k], Try(w, revision, ms).world.actors[k];
            after == a.(position := after.position) && ExtrapolatesVec(a.position, a.velocity, ms, after.position)
  {
    hide RoundVec;
    hide Moved;
    hide CanAdvance;
    hide ExtrapolatesVec;
    AdvancedOne(w, ms, k);
    MovedExactly(w.actors[k].position, w.actors[k].velocity, ms);
    hide AdvancedWorld;
  }

  /** The coordinate is within the distance of the one reached at speed v. */
  predicate Drifts(p: real, v: real, ms: nat, q: real, distance: real) {
    0.0 - 1000.0 * distance <= 1000.0 * (q - p) - v * ms as real <= 1000.0 * distance
  }

  lemma WithinDrifts(p: real, v: real, ms: nat, q: real, distance: real)
    requires Within(q, Displaced(p, v, ms), distance)
    ensures Drifts(p, v, ms, q, distance)
  {
    DisplacedReached(p, v, ms);
    hide Displaced;
  }

  /** After n accepted advances without a trajectory, rounding has moved no coordinate by more than n / 2 um. */
  lemma DriftInNumbers(w: World, ds: seq<nat>, k: nat)
    requires AllAccepted(w, ds) && k < |w.actors| && w.actors[k].trajectory == []
    ensures |AdvancedBy(w, ds).actors| == |w.actors|
    ensures var a, after := w.actors[k], AdvancedBy(w, ds).actors[k];
            var distance := |ds| as real * 0.0000005;
            && Drifts(a.position.x, a.velocity.x, Sum(ds), after.position.x, distance)
            && Drifts(a.position.y, a.velocity.y, Sum(ds), after.position.y, distance)
            && Drifts(a.position.z, a.velocity.z, Sum(ds), after.position.z, distance)
  {
    hide AdvancedBy;
    hide AllAccepted;
    hide Displaced;
    hide Within;
    hide Drifts;
    hide Sum;
    DriftBounded(w, ds, k);
    var a, after := w.actors[k], AdvancedBy(w, ds).actors[k];
    var distance := |ds| as real * HALF_UNIT;
    WithinDrifts(a.position.x, a.velocity.x, Sum(ds), after.position.x, distance);
    WithinDrifts(a.position.y, a.velocity.y, Sum(ds), after.position.y, distance);
    WithinDrifts(a.position.z, a.velocity.z, Sum(ds), after.position.z, distance);
  }
}

/**
 * The ego vehicle's lane and its distance to the lane's centreline, a polyline. Squared distances are computed
 * where the planner takes their roots.
 */
module LaneKeeping {
  import opened AdasSchemas
  import opened Basics
  import opened Planner

  datatype Lane = Lane(identifier: string, centerline: seq<Vec>, width: real)
  {
    predicate Valid() { |centerline| >= 2 }
  }

  /** The first lane of that name, road by road. */
  function FindLane(roads: seq<seq<Lane>>, identifier: string): Option<Lane> {
    if roads == [] then None
    else if FindIn(roads[0], identifier).Some? then FindIn(roads[0], identifier)
    else FindLane(roads[1..], identifier)
  }

  function FindIn(lanes: seq<Lane>, identifier: string): Option<Lane> {
    if lanes == [] then None
    else if lanes[0].identifier == identifier then Some(lanes[0])
    else FindIn(lanes[1..], identifier)
  }

  predicate Listed(roads: seq<seq<Lane>>, i: int, j: int, identifier: string) {
    0 <= i < |roads| && 0 <= j < |roads[i]| && roads[i][j].identifier == identifier
  }

  /** A lane is found exactly when one has the name, and then it is the first one, by road and by place in the road. */
  lemma {:induction false} FindLaneExact(roads: seq<seq<Lane>>, identifier: string)
    ensures FindLane(roads, identifier).Some? <==> exists i, j :: Listed(roads, i, j, identifier)
    ensures FindLane(roads, identifier).Some? ==>
              exists i, j :: Listed(roads, i, j, identifier) && FindLane(roads, identifier) == Some(roads[i][j])
                && forall k, l :: Listed(roads, k, l, identifier) ==> i < k || (i == k && j <= l)
  {
    if roads != [] {
      FindInExact(roads[0], identifier);
      if FindIn(roads[0], identifier).Some? {
        var j :| 0 <= j < |roads[0]| && FindIn(roads[0], identifier) == Some(roads[0][j])
                 && roads[0][j].identifier == identifier
                 && forall l :: 0 <= l < j ==> roads[0][l].identifier != identifier;
        assert Listed(roads, 0, j, identifier);
      } else {
        var rest := roads[1..];
        FindLaneExact(rest, identifier);
        forall k, l | Listed(roads, k, l, identifier) ensures k >= 1 && Listed(rest, k - 1, l, identifier) {
        }
        if FindLane(rest, identifier).Some? {
          var i, j :| Listed(rest, i, j, identifier) && FindLane(rest, identifier) == Some(rest[i][j])
                      && forall k, l :: Listed(rest, k, l, identifier) ==> i < k || (i == k && j <= l);
          assert Listed(roads, i + 1, j, identifier);
        }
      }
    }
  }

  lemma {:induction false} FindInExact(lanes: seq<Lane>, identifier: string)
    ensures FindIn(lanes, identifier).None? <==> forall j :: 0 <= j < |lanes| ==> lanes[j].identifier != identifier
    ensures FindIn(lanes, identifier).Some? ==>
              exists j :: 0 <= j < |lanes| && FindIn(lanes, identifier) == Some(lanes[j])
                && lanes[j].identifier == identifier && forall l :: 0 <= l < j ==> lanes[l].identifier != identifier
  {
    if lanes != [] && lanes[0].identifier != identifier {
      var rest := lanes[1..];
      FindInExact(rest, identifier);
      if FindIn(rest, identifier).Some? {
        var j :| 0 <= j < |rest| && FindIn(rest, identifier) == Some(rest[j])
                 && rest[j].identifier == identifier && forall l :: 0 <= l < j ==> rest[l].identifier != identifier;
        assert lanes[j + 1] == rest[j];
        forall l | 0 <= l < j + 1 ensures lanes[l].identifier != identifier {
          assert l > 0 ==> lanes[l] == rest[l - 1];
        }
      } else {
        forall j | 0 <= j < |lanes| ensures lanes[j].identifier != identifier {
          assert j > 0 ==> lanes[j] == rest[j - 1];
        }
      }
    }
  }

  method RequireLane(roads: seq<seq<Lane>>, identifier: string) returns (lane: Option<Lane>)
    ensures lane == FindLane(roads, identifier)
  {
    for i := 0 to |roads|
      invariant FindLane(roads, identifier) == FindLane(roads[i..], identifier)
    {
      for j := 0 to |roads[i]|
        invariant FindIn(roads[i], identifier) == FindIn(roads[i][j..], identifier)
      {
        if roads[i][j].identifier == identifier {
          return Some(roads[i][j]);
        }
      }
    }
    return None;
  }

  // ---------- points and segments ----------

  /** A product, named so that the proofs can treat it as a whole. */
  function Times(x: real, y: real): real { x * y }

  function Square(x: real): real { Times(x, x) }

  function Dot(x: real, y: real, u: real, v: real): real { Times(x, u) + Times(y, v) }

  function SquaredBetween(x: real, y: real, v: Vec): real {
    Dot(x - v.x, y - v.y, x - v.x, y - v.y)
  }

  /** The point at ratio t on the way from one point to another. */
  function Along(start: Vec, end: Vec, t: real): Vec {
    Vec(start.x + Times(t, end.x - start.x), start.y + Times(t, end.y - start.y), 0.0)
  }

  function SquaredLength(start: Vec, end: Vec): real {
    Dot(end.x - start.x, end.y - start.y, end.x - start.x, end.y - start.y)
  }

  function Inner(x: real, y: real, start: Vec, end: Vec): real {
    Dot(x - start.x, y - start.y, end.x - start.x, end.y - start.y)
  }

  function ClampRatio(t: real): real {
    if t < 0.0 then 0.0 else if t > 1.0 then 1.0 else t
  }

  /** Where the perpendicular from (x, y) meets the segment, or the segment's nearer end. */
  function Projection(x: real, y: real, start: Vec, end: Vec): real {
    if SquaredLength(start, end) == 0.0 then 0.0
    else ClampRatio(Inner(x, y, start, end) / SquaredLength(start, end))
  }

  function SquaredToSegment(x: real, y: real, start: Vec, end: Vec): real {
    SquaredBetween(x, y, Along(start, end, Projection(x, y, start, end)))
  }

  function SegmentDistances(x: real, y: real, line: seq<Vec>): seq<real>
    requires |line| >= 2
  {
    seq(|line| - 1, i requires 0 <= i < |line| - 1 => SquaredToSegment(x, y, line[i], line[i + 1]))
  }

  function SquaredToLine(x: real, y: real, line: seq<Vec>): real
    requires |line| >= 2
  {
    LeastExact(SegmentDistances(x, y, line));
    Least(SegmentDistances(x, y, line)).value
  }

  /** The squared distance from (x, y) to the point at ratio t of segment i. */
  function SquaredTo(x: real, y: real, line: seq<Vec>, i: nat, t: real): real
    requires i + 1 < |line|
  {
    SquaredBetween(x, y, Along(line[i], line[i + 1], t))
  }

  // ---------- the nearest point ----------

  /** What ratio t adds to the squared distance from the start of a segment. */
  function Rise(t: real, inner: real, length: real): real {
    t * t * length - 2.0 * t * inner
  }

  /** The squared distance is a quadratic function of the ratio. */
  lemma Quadratic(x: real, y: real, start: Vec, end: Vec, t: real)
    ensures SquaredBetween(x, y, Along(start, end, t)) ==
            SquaredBetween(x, y, start) + Rise(t, Inner(x, y, start, end), SquaredLength(start, end))
  {
    hide Times;
    hide Rise;
    var a, b, dx, dy := x - start.x, y - start.y, end.x - start.x, end.y - start.y;
    OneAxis(a, dx, t);
    OneAxis(b, dy, t);
    RisesAdd(t, Times(a, dx), Times(dx, dx), Times(b, dy), Times(dy, dy));
  }

  lemma OneAxis(a: real, d: real, t: real)
    ensures Square(a - Times(t, d)) == Square(a) + Rise(t, Times(a, d), Times(d, d))
  {}

  lemma RisesAdd(t: real, i: real, l: real, j: real, m: real)
    ensures Rise(t, i, l) + Rise(t, j, m) == Rise(t, i + j, l + m)
  {}

  /** The clamped projection minimises the quadratic function on the unit interval. */
  lemma ClampMinimises(length: real, r: real, t: real)
    requires length > 0.0 && 0.0 <= t <= 1.0
    ensures var c := ClampRatio(r);
            Rise(c, r * length, length) <= Rise(t, r * length, length)
  {
    var c := ClampRatio(r);
    if c == r {
      SquareNotNegative(t - r);
      assert (t - c) * (t + c - 2.0 * r) == Square(t - r);
    } else if r < 0.0 {
      ProductNotNegative(t, t - 2.0 * r);
    } else {
      ProductNotNegative(1.0 - t, 2.0 * r - 1.0 - t);
    }
    ProductNotNegative(length, (t - c) * (t + c - 2.0 * r));
    Factored(length, r, t, c);
    hide Rise;
  }

  lemma Factored(length: real, r: real, t: real, c: real)
    ensures length * ((t - c) * (t + c - 2.0 * r)) ==
            Rise(t, r * length, length) - Rise(c, r * length, length)
  {}

  lemma ProductNotNegative(a: real, b: real)
    requires a >= 0.0 && b >= 0.0
    ensures a * b >= 0.0
  {}

  lemma SquareNotNegative(a: real)
    ensures Square(a) >= 0.0
    ensures a != 0.0 ==> Square(a) > 0.0
  {
    hide Square;
    SquareEven(a);
    if a > 0.0 {
      SquarePositive(a);
    } else if a < 0.0 {
      SquarePositive(-a);
    }
  }

  lemma SquareEven(a: real)
    ensures Square(-a) == Square(a)
    ensures Square(0.0) == 0.0
  {}

  lemma SquarePositive(a: real)
    requires a > 0.0
    ensures Square(a) > 0.0
  {
    hide Times;
    ProductPositive(a, a);
  }

  lemma ProductPositive(a: real, b: real)
    requires a > 0.0 && b > 0.0
    ensures Times(a, b) > 0.0
  {}

  /** No point of a segment is nearer than the projection. */
  lemma NearestOnSegment(x: real, y: real, start: Vec, end: Vec, t: real)
    requires 0.0 <= t <= 1.0
    ensures SquaredToSegment(x, y, start, end) <= SquaredBetween(x, y, Along(start, end, t))
    ensures 0.0 <= Projection(x, y, start, end) <= 1.0
  {
    hide SquaredBetween;
    hide Along;
    hide Inner;
    hide Dot;
    LengthNotNegative(start, end);
    var length, inner := SquaredLength(start, end), Inner(x, y, start, end);
    var c := Projection(x, y, start, end);
    if length == 0.0 {
      OnePoint(start, end, t);
      OnePoint(start, end, 0.0);
    } else {
      Quadratic(x, y, start, end, t);
      Quadratic(x, y, start, end, c);
      Quotient(inner, length);
      ClampMinimises(length, inner / length, t);
      hide ClampRatio;
      hide SquaredLength;
      hide Rise;
    }
  }

  lemma LengthNotNegative(start: Vec, end: Vec)
    ensures SquaredLength(start, end) >= 0.0
    ensures start.x != end.x || start.y != end.y ==> SquaredLength(start, end) > 0.0
  {
    hide Dot;
    DotNotNegative(end.x - start.x, end.y - start.y);
  }

  lemma DotNotNegative(x: real, y: real)
    ensures Dot(x, y, x, y) >= 0.0
    ensures x != 0.0 || y != 0.0 ==> Dot(x, y, x, y) > 0.0
  {
    hide Dot;
    hide Square;
    SumOfSquares(x, y);
    SquareNotNegative(x);
    SquareNotNegative(y);
  }

  lemma SumOfSquares(x: real, y: real)
    ensures Dot(x, y, x, y) == Square(x) + Square(y)
  {}

  lemma Quotient(a: real, b: real)
    requires b != 0.0
    ensures a / b * b == a
  {}

  lemma OnePoint(start: Vec, end: Vec, t: real)
    requires start.x == end.x && start.y == end.y
    ensures Along(start, end, t) == Vec(start.x, start.y, 0.0)
  {}

  /** The computed distance is that of a nearest point: of some point on the line, and at most that of every point. */
  lemma NearestOnLine(x: real, y: real, line: seq<Vec>)
    requires |line| >= 2
    ensures exists i: nat, t :: i + 1 < |line| && 0.0 <= t <= 1.0
              && SquaredTo(x, y, line, i, t) == SquaredToLine(x, y, line)
    ensures forall i: nat, t :: i + 1 < |line| && 0.0 <= t <= 1.0 ==>
              SquaredToLine(x, y, line) <= SquaredTo(x, y, line, i, t)
  {
    var distances := SegmentDistances(x, y, line);
    LeastExact(distances);
    var i :| 0 <= i < |distances| && distances[i] == Least(distances).value;
    NearestOnSegment(x, y, line[i], line[i + 1], 0.0);
    assert SquaredTo(x, y, line, i, Projection(x, y, line[i], line[i + 1])) == SquaredToLine(x, y, line);
    forall j: nat, t | j + 1 < |line| && 0.0 <= t <= 1.0
      ensures SquaredToLine(x, y, line) <= SquaredTo(x, y, line, j, t)
    {
      NearestOnSegment(x, y, line[j], line[j + 1], t);
      assert distances[j] in distances;
    }
  }

  method DistanceToPolyline(x: real, y: real, line: seq<Vec>) returns (squared: real)
    requires |line| >= 2
    ensures squared == SquaredToLine(x, y, line)
  {
    hide SquaredToSegment;
    var distances := [];
    for i := 0 to |line| - 1
      invariant distances == SegmentDistances(x, y, line)[..i]
    {
      var distance := DistanceToSegment(x, y, line[i], line[i + 1]);
      distances := distances + [distance];
    }
    assert SegmentDistances(x, y, line)[..|line| - 1] == SegmentDistances(x, y, line);
    LeastExact(distances);
    squared := Least(distances).value;
  }

  method DistanceToSegment(x: real, y: real, start: Vec, end: Vec) returns (squared: real)
    ensures squared == SquaredToSegment(x, y, start, end)
  {
    hide Dot;
    hide SquaredBetween;
    hide ClampRatio;
    var dx, dy := end.x - start.x, end.y - start.y;
    var lengthSquared := Dot(dx, dy, dx, dy);
    if lengthSquared == 0.0 {
      AlongNothing(start, end);
      SameSquares(x, y, start, Along(start, end, 0.0));
      assert Projection(x, y, start, end) == 0.0;
      return SquaredBetween(x, y, start);
    }
    var projection := ClampRatio(Dot(x - start.x, y - start.y, dx, dy) / lengthSquared);
    assert Along(start, end, projection) == Vec(start.x + Times(projection, dx), start.y + Times(projection, dy), 0.0);
    squared := SquaredBetween(x, y, Vec(start.x + Times(projection, dx), start.y + Times(projection, dy), 0.0));
  }

  lemma AlongNothing(start: Vec, end: Vec)
    ensures Along(start, end, 0.0) == Vec(start.x, start.y, 0.0)
  {}

  lemma SameSquares(x: real, y: real, v: Vec, w: Vec)
    requires v.x == w.x && v.y == w.y
    ensures SquaredBetween(x, y, v) == SquaredBetween(x, y, w)
  {}

  // ---------- keeping the lane ----------

  /** The planner's lane is this one: the offset is the root of the squared distance. */
  ghost predicate Measures(g: LaneGeometry, lane: Lane, ego: Actor) {
    && lane.Valid()
    && g.width == lane.width
    && g.offset >= 0.0
    && Square(g.offset) == SquaredToLine(ego.position.x, ego.position.y, lane.centerline)
  }

  /** What the planner is told of its lane: nothing when the scene has no lane of that name, else its measures. */
  ghost predicate Observes(p: Pose, roads: seq<seq<Lane>>, laneId: string, ego: Actor) {
    match FindLane(roads, laneId)
    case None => p.lane.None?
    case Some(lane) => p.lane.Some? && Measures(p.lane.value, lane, ego)
  }

  /** Every point of the line is farther away than the bound. */
  ghost predicate Beyond(ego: Actor, line: seq<Vec>, bound: real) {
    forall i: nat, t :: i + 1 < |line| && 0.0 <= t <= 1.0 ==>
      Square(bound) < SquaredTo(ego.position.x, ego.position.y, line, i, t)
  }

  /**
   * A plan exists only if the scene has the lane. It reports a departure exactly when every point of the lane's
   * centreline is farther from the ego vehicle than the allowed offset.
   */
  lemma DepartureExact(p: Pose, roads: seq<seq<Lane>>, laneId: string, actors: seq<Actor>,
                       predictions: seq<Prediction>, c: PlanCommand)
    requires Evaluate(p, actors, predictions, c).Ok? && Observes(p, roads, laneId, FindEgo(actors).value)
    ensures FindLane(roads, laneId).Some?
    ensures var plan, ego := Evaluate(p, actors, predictions, c).value, FindEgo(actors).value;
            plan.metrics.laneDeparture <==>
              Beyond(ego, FindLane(roads, laneId).value.centerline, AllowedOffset(p.lane.value, ego, c))
  {
    hide Square;
    hide SquaredTo;
    hide SquaredToLine;
    hide CollisionTimes;
    hide LeadDistances;
    hide Least;
    hide Perceived;
    hide Rounding.Round6;
    hide Alerts;
    hide Decide;
    hide FindLane;
    var ego := FindEgo(actors).value;
    NearestOnLine(ego.position.x, ego.position.y, FindLane(roads, laneId).value.centerline);
    SquaresOrder(AllowedOffset(p.lane.value, ego, c), p.lane.value.offset);
    hide FindEgo;
  }

  lemma SquaresOrder(a: real, b: real)
    requires a >= 0.0 && b >= 0.0
    ensures a < b <==> Square(a) < Square(b)
  {
    if a < b {
      ProductPositive(b - a, b + a);
      DifferenceOfSquares(b, a);
    } else {
      ProductNotNegative(a - b, a + b);
      DifferenceOfSquares(a, b);
    }
  }

  lemma DifferenceOfSquares(a: real, b: real)
    ensures (a - b) * (a + b) == Square(a) - Square(b)
  {}

  // ---------- frames of reference ----------

  function MovedLane(m: Motion, lane: Lane): Lane {
    lane.(centerline := seq(|lane.centerline|, i requires 0 <= i < |lane.centerline| => m.Place(lane.centerline[i])))
  }

  /** A rigid motion keeps lengths and projections. */
  lemma SegmentKept(m: Motion, v: Vec, start: Vec, end: Vec)
    requires m.Rigid()
    ensures var w, s, e := m.Place(v), m.Place(start), m.Place(end);
            && SquaredLength(s, e) == SquaredLength(start, end)
            && Inner(w.x, w.y, s, e) == Inner(v.x, v.y, start, end)
            && SquaredBetween(w.x, w.y, s) == SquaredBetween(v.x, v.y, start)
  {
    hide Dot;
    hide Motion.Rigid;
    hide Motion.TurnX;
    hide Motion.TurnY;
    var dx, dy, ax, ay := end.x - start.x, end.y - start.y, v.x - start.x, v.y - start.y;
    TurnLinear(m, end.x, end.y, start.x, start.y);
    TurnLinear(m, v.x, v.y, start.x, start.y);
    DotKept(m, dx, dy, dx, dy);
    DotKept(m, ax, ay, ax, ay);
    DotKept(m, ax, ay, dx, dy);
  }

  lemma DotKept(m: Motion, x: real, y: real, u: real, v: real)
    requires m.Rigid()
    ensures Dot(m.TurnX(x, y), m.TurnY(x, y), m.TurnX(u, v), m.TurnY(u, v)) == Dot(x, y, u, v)
  {
    InnerProductKept(m, x, y, u, v);
    hide Motion.TurnX;
    hide Motion.TurnY;
  }

  lemma DistanceKept(m: Motion, v: Vec, start: Vec, end: Vec)
    requires m.Rigid()
    ensures var w := m.Place(v);
            SquaredToSegment(w.x, w.y, m.Place(start), m.Place(end)) == SquaredToSegment(v.x, v.y, start, end)
  {
    hide Motion.Place;
    hide Motion.Rigid;
    hide Square;
    hide SquaredBetween;
    hide SquaredLength;
    hide Inner;
    hide Along;
    hide ClampRatio;
    SegmentKept(m, v, start, end);
    var w, s, e := m.Place(v), m.Place(start), m.Place(end);
    var t := Projection(v.x, v.y, start, end);
    Quadratic(v.x, v.y, start, end, t);
    Quadratic(w.x, w.y, s, e, t);
  }

  /** Moving the whole scene keeps what the planner knows of its lane: FrameIrrelevant applies with the lane moved. */
  lemma LaneKept(m: Motion, g: LaneGeometry, lane: Lane, ego: Actor)
    requires m.Rigid()
    ensures Measures(g, lane, ego) <==> Measures(g, MovedLane(m, lane), MovedActor(m, ego))
  {
    var line, moved := lane.centerline, MovedLane(m, lane).centerline;
    var v := ego.position;
    var w := MovedActor(m, ego).position;
    forall i | 0 <= i < |line| - 1
      ensures SquaredToSegment(w.x, w.y, moved[i], moved[i + 1]) == SquaredToSegment(v.x, v.y, line[i], line[i + 1])
    {
      DistanceKept(m, v, line[i], line[i + 1]);
    }
    hide SquaredToSegment;
    hide Square;
    hide Motion.Place;
    hide Least;
    if |line| >= 2 {
      assert SegmentDistances(w.x, w.y, moved) == SegmentDistances(v.x, v.y, line);
    }
  }
}

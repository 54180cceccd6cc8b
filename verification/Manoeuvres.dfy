/** Why the planner chooses a manoeuvre and raises an alert, told by the scene and the predictions alone. */
module Manoeuvres {
  import opened AdasSchemas
  import opened Basics
  import opened Rounding
  import opened Planner

  // ---------- the scene as the ego vehicle sees it ----------

  /** The heading is a unit vector. */
  predicate Oriented(p: Pose) {
    p.cosine * p.cosine + p.sine * p.sine == 1.0
  }

  /** The vector (x, y) points `along` metres ahead and `across` metres to the left. */
  predicate Aligned(p: Pose, x: real, y: real, along: real, across: real) {
    x == along * p.cosine - across * p.sine && y == along * p.sine + across * p.cosine
  }

  lemma UnitCombination(p: Pose, a: real)
    requires Oriented(p)
    ensures p.cosine * (p.cosine * a) + p.sine * (p.sine * a) == a
  {
    assert (p.cosine * p.cosine + p.sine * p.sine) * a == p.cosine * (p.cosine * a) + p.sine * (p.sine * a);
  }

  /** Every vector has one such decomposition: by the heading's inner and cross product. */
  lemma AlignedExactly(p: Pose, x: real, y: real, along: real, across: real)
    requires Oriented(p)
    ensures Aligned(p, x, y, along, across) <==>
            along == x * p.cosine + y * p.sine && across == y * p.cosine - x * p.sine
  {
    UnitCombination(p, along);
    UnitCombination(p, across);
    UnitCombination(p, x);
    UnitCombination(p, y);
  }

  /** Where the actor is, seen from the ego vehicle. */
  predicate Located(p: Pose, ego: Actor, a: Actor, along: real, across: real) {
    Aligned(p, a.position.x - ego.position.x, a.position.y - ego.position.y, along, across)
  }

  /** Ahead of the ego vehicle and, with half of both widths, in its way. */
  predicate InTheWay(ego: Actor, a: Actor, along: real, across: real) {
    along > 0.0 && 0.0 - (ego.width + a.width) <= 2.0 * across <= ego.width + a.width
  }

  /** After t seconds at their velocities the actor is alongside the ego vehicle. */
  predicate Alongside(p: Pose, ego: Actor, a: Actor, t: real, across: real) {
    Aligned(p, (a.position.x - ego.position.x) + t * (a.velocity.x - ego.velocity.x),
            (a.position.y - ego.position.y) + t * (a.velocity.y - ego.velocity.y), 0.0, across)
  }

  /** The actor is in the way, and the ego vehicle gets to it in t seconds, not now or in the past. */
  ghost predicate Collides(p: Pose, ego: Actor, a: Actor, t: real) {
    && t > 0.0
    && (exists along, across :: Located(p, ego, a, along, across) && InTheWay(ego, a, along, across))
    && exists across :: Alongside(p, ego, a, t, across)
  }

  /** A vehicle in the way, at the given distance ahead. */
  ghost predicate Leads(p: Pose, ego: Actor, a: Actor, along: real) {
    a.kind.Vehicle? && exists across :: Located(p, ego, a, along, across) && InTheWay(ego, a, along, across)
  }

  // ---------- what the planner computes ----------

  lemma LocatedExactly(p: Pose, ego: Actor, a: Actor, along: real, across: real)
    requires Oriented(p)
    ensures Located(p, ego, a, along, across) <==>
            along == Longitudinal(p, ego, a) && across == Lateral(p, ego, a)
  {
    hide Aligned;
    AlignedExactly(p, a.position.x - ego.position.x, a.position.y - ego.position.y, along, across);
    hide Oriented;
  }

  lemma InPathExactly(p: Pose, ego: Actor, a: Actor)
    requires Oriented(p)
    ensures InPath(p, ego, a) <==>
            exists along, across :: Located(p, ego, a, along, across) && InTheWay(ego, a, along, across)
    ensures forall along, across :: Located(p, ego, a, along, across) ==> along == Longitudinal(p, ego, a)
  {
    hide Longitudinal;
    hide Lateral;
    hide Located;
    forall along, across ensures Located(p, ego, a, along, across) <==>
                                 along == Longitudinal(p, ego, a) && across == Lateral(p, ego, a) {
      LocatedExactly(p, ego, a, along, across);
    }
    assert Located(p, ego, a, Longitudinal(p, ego, a), Lateral(p, ego, a));
  }

  lemma LeadingExactly(p: Pose, ego: Actor, a: Actor, along: real)
    requires Oriented(p)
    ensures Leads(p, ego, a, along) <==> Leading(p, ego, a) && along == Longitudinal(p, ego, a)
  {
    hide Located;
    hide InTheWay;
    hide InPath;
    hide Longitudinal;
    InPathExactly(p, ego, a);
  }

  /** Relative speed shortens the distance ahead linearly. */
  lemma Approach(p: Pose, ego: Actor, a: Actor, t: real)
    ensures ((a.position.x - ego.position.x) + t * (a.velocity.x - ego.velocity.x)) * p.cosine
            + ((a.position.y - ego.position.y) + t * (a.velocity.y - ego.velocity.y)) * p.sine ==
            Longitudinal(p, ego, a) - t * ClosingSpeed(p, ego, a)
  {
    ProductOfSum(a.position.x - ego.position.x, t, a.velocity.x - ego.velocity.x, p.cosine);
    ProductOfSum(a.position.y - ego.position.y, t, a.velocity.y - ego.velocity.y, p.sine);
    var u, v := (a.velocity.x - ego.velocity.x) * p.cosine, (a.velocity.y - ego.velocity.y) * p.sine;
    assert ClosingSpeed(p, ego, a) == 0.0 - (u + v);
    assert t * (0.0 - (u + v)) == 0.0 - (t * u + t * v);
  }

  lemma ProductOfSum(d: real, t: real, v: real, c: real)
    ensures (d + t * v) * c == d * c + t * (v * c)
  {}

  lemma AlongsideExactly(p: Pose, ego: Actor, a: Actor, t: real)
    requires Oriented(p)
    ensures (exists across :: Alongside(p, ego, a, t, across)) <==>
            Longitudinal(p, ego, a) == t * ClosingSpeed(p, ego, a)
  {
    var x := (a.position.x - ego.position.x) + t * (a.velocity.x - ego.velocity.x);
    var y := (a.position.y - ego.position.y) + t * (a.velocity.y - ego.velocity.y);
    Approach(p, ego, a, t);
    hide Longitudinal;
    hide ClosingSpeed;
    forall across ensures Alongside(p, ego, a, t, across) <==>
                          Longitudinal(p, ego, a) == t * ClosingSpeed(p, ego, a)
                          && across == y * p.cosine - x * p.sine {
      AlignedExactly(p, x, y, 0.0, across);
      hide Aligned;
    }
    hide Alongside;
    assert Alongside(p, ego, a, t, y * p.cosine - x * p.sine) <==>
           Longitudinal(p, ego, a) == t * ClosingSpeed(p, ego, a);
  }

  /** The time to collision is the one time at which the two get alongside. */
  lemma CollisionTimeExactly(p: Pose, ego: Actor, a: Actor, t: real)
    requires Oriented(p)
    ensures Collides(p, ego, a, t) <==> Closing(p, ego, a) && t == TimeToCollision(p, ego, a)
  {
    hide Located;
    hide InTheWay;
    hide Alongside;
    InPathExactly(p, ego, a);
    AlongsideExactly(p, ego, a, t);
    var d, s := Longitudinal(p, ego, a), ClosingSpeed(p, ego, a);
    if InPath(p, ego, a) {
      DistanceOverSpeed(d, s, t);
    }
    hide Longitudinal;
    hide ClosingSpeed;
    hide Lateral;
  }

  lemma DistanceOverSpeed(d: real, s: real, t: real)
    requires d > 0.0
    ensures t > 0.0 && d == t * s <==> s > 0.0 && t == d / s
  {
    if s > 0.0 {
      var q := d / s;
      assert q * s == d;
      assert t * s == d ==> (t - q) * s == 0.0;
      QuotientPositive(d, s);
    } else if t > 0.0 {
      NotPositive(t, s);
    }
  }

  lemma QuotientPositive(d: real, s: real)
    requires d > 0.0 && s > 0.0
    ensures d / s > 0.0
  {}

  lemma NotPositive(t: real, s: real)
    requires t > 0.0 && s <= 0.0
    ensures t * s <= 0.0
  {}

  // ---------- what is perceived ----------

  /** Some object or pedestrian prediction names the actor. */
  ghost predicate Named(predictions: seq<Prediction>, a: Actor) {
    exists i :: 0 <= i < |predictions| && predictions[i].groundTruthId == a.identifier
      && (predictions[i].target == ObjectTarget || predictions[i].target == PedestrianTarget)
  }

  /** Some signal prediction says red. */
  ghost predicate RedSeen(predictions: seq<Prediction>) {
    exists i :: 0 <= i < |predictions|
      && predictions[i].target == SignalTarget && predictions[i].classification == "red"
  }

  /** The first ego vehicle of the scene. */
  ghost predicate IsEgo(actors: seq<Actor>, ego: Actor) {
    exists i :: 0 <= i < |actors| && actors[i] == ego && ego.kind == EgoVehicle
      && forall j :: 0 <= j < i ==> actors[j].kind != EgoVehicle
  }

  lemma {:induction false} EgoExactly(actors: seq<Actor>, ego: Actor)
    ensures FindEgo(actors) == Some(ego) <==> IsEgo(actors, ego)
    ensures FindEgo(actors).None? <==> forall i :: 0 <= i < |actors| ==> actors[i].kind != EgoVehicle
  {
    if actors != [] && actors[0].kind != EgoVehicle {
      var rest := actors[1..];
      EgoExactly(rest, ego);
      if IsEgo(rest, ego) {
        var i :| 0 <= i < |rest| && rest[i] == ego && ego.kind == EgoVehicle
                 && forall j :: 0 <= j < i ==> rest[j].kind != EgoVehicle;
        assert actors[i + 1] == ego;
        assert forall j :: 0 < j < i + 1 ==> actors[j] == rest[j - 1];
      }
      assert forall i :: 0 < i < |actors| ==> actors[i] == rest[i - 1];
    }
  }

  lemma NamedExactly(predictions: seq<Prediction>, a: Actor)
    ensures a.identifier in Perceived(predictions) <==> Named(predictions, a)
  {}

  lemma RedExactly(predictions: seq<Prediction>)
    ensures SeesRed(predictions) <==> RedSeen(predictions)
  {}

  // ---------- dangers ----------

  /** The ego vehicle collides with some perceived actor within the bound, to six decimals of a second. */
  ghost predicate CollidesWithin(p: Pose, ego: Actor, actors: seq<Actor>, predictions: seq<Prediction>, bound: real) {
    exists a, t, y :: a in actors && Named(predictions, a) && Collides(p, ego, a, t) && SixDecimals(y, t) && y <= bound
  }

  /** Some perceived vehicle ahead is nearer than the bound. */
  ghost predicate LeadCloserThan(p: Pose, ego: Actor, actors: seq<Actor>, predictions: seq<Prediction>, bound: real) {
    exists a, along :: a in actors && Named(predictions, a) && Leads(p, ego, a, along) && along < bound
  }

  /** The ego vehicle is off the centreline and, with the margin, not within the lane. */
  predicate OffLane(lane: LaneGeometry, ego: Actor, margin: real) {
    lane.offset > 0.0 && lane.offset + ego.width / 2.0 + margin > lane.width / 2.0
  }

  lemma OffLaneExactly(lane: LaneGeometry, ego: Actor, c: PlanCommand)
    ensures lane.offset > AllowedOffset(lane, ego, c) <==> OffLane(lane, ego, c.laneMargin)
  {}

  lemma CollisionBound(p: Pose, ego: Actor, actors: seq<Actor>, predictions: seq<Prediction>, bound: real)
    requires Oriented(p)
    ensures AtMost(RoundedOptional(Least(CollisionTimes(p, ego, Perceived(predictions), actors))), bound) <==>
            CollidesWithin(p, ego, actors, predictions, bound)
  {
    hide Closing;
    hide TimeToCollision;
    hide Collides;
    hide Least;
    hide Round6;
    hide SixDecimals;
    hide CollisionTimes;
    hide Named;
    hide Perceived;
    var seen := Perceived(predictions);
    var times := CollisionTimes(p, ego, seen, actors);
    LeastExact(times);
    forall a, t ensures Collides(p, ego, a, t) <==> Closing(p, ego, a) && t == TimeToCollision(p, ego, a) {
      CollisionTimeExactly(p, ego, a, t);
    }
    forall a: Actor ensures a.identifier in seen <==> Named(predictions, a) {
      NamedExactly(predictions, a);
    }
    if times != [] {
      var least := Least(times).value;
      CollisionTimesExact(p, ego, seen, actors, least);
      Round6Exactly(least, Round6(least));
      var a :| a in actors && a.identifier in seen && Closing(p, ego, a) && TimeToCollision(p, ego, a) == least;
      assert Collides(p, ego, a, least);
    }
    if a, t, y :| a in actors && Named(predictions, a) && Collides(p, ego, a, t) && SixDecimals(y, t) && y <= bound {
      CollisionTimesExact(p, ego, seen, actors, t);
      Round6Exactly(t, y);
      Round6Monotone(Least(times).value, t);
    }
  }

  lemma LeadBound(p: Pose, ego: Actor, actors: seq<Actor>, predictions: seq<Prediction>, bound: real)
    requires Oriented(p)
    ensures var lead := Least(LeadDistances(p, ego, Perceived(predictions), actors));
            !(lead.None? || lead.value >= bound) <==> LeadCloserThan(p, ego, actors, predictions, bound)
  {
    hide Leading;
    hide Longitudinal;
    hide Leads;
    hide Least;
    hide LeadDistances;
    hide Named;
    hide Perceived;
    var seen := Perceived(predictions);
    var leads := LeadDistances(p, ego, seen, actors);
    LeastExact(leads);
    forall a, d ensures Leads(p, ego, a, d) <==> Leading(p, ego, a) && d == Longitudinal(p, ego, a) {
      LeadingExactly(p, ego, a, d);
    }
    forall a: Actor ensures a.identifier in seen <==> Named(predictions, a) {
      NamedExactly(predictions, a);
    }
    if leads != [] {
      var least := Least(leads).value;
      LeadDistancesExact(p, ego, seen, actors, least);
      var a :| a in actors && a.identifier in seen && Leading(p, ego, a) && Longitudinal(p, ego, a) == least;
      assert Leads(p, ego, a, least);
    }
    if a, along :| a in actors && Named(predictions, a) && Leads(p, ego, a, along) && along < bound {
      LeadDistancesExact(p, ego, seen, actors, along);
    }
  }

  // ---------- manoeuvres and alerts ----------

  /** What the four dangers are in a scene, for the thresholds of the command. */
  datatype Dangers = Dangers(emergency: bool, warning: bool, close: bool, off: bool, red: bool)

  ghost function DangersOf(p: Pose, lane: LaneGeometry, ego: Actor, actors: seq<Actor>, predictions: seq<Prediction>,
                           c: PlanCommand): Dangers {
    Dangers(CollidesWithin(p, ego, actors, predictions, c.emergencyTtc),
            CollidesWithin(p, ego, actors, predictions, c.warningTtc),
            LeadCloserThan(p, ego, actors, predictions, c.minimumFollowingDistance),
            OffLane(lane, ego, c.laneMargin), RedSeen(predictions))
  }

  lemma DangersInMetrics(p: Pose, actors: seq<Actor>, predictions: seq<Prediction>, c: PlanCommand)
    requires Oriented(p) && Evaluate(p, actors, predictions, c).Ok?
    ensures FindEgo(actors).Some? && IsEgo(actors, FindEgo(actors).value) && p.lane.Some?
    ensures var d := DangersOf(p, p.lane.value, FindEgo(actors).value, actors, predictions, c);
            var plan := Evaluate(p, actors, predictions, c).value;
            var m := plan.metrics;
            && (AtMost(m.minimumTtc, c.emergencyTtc) <==> d.emergency)
            && (AtMost(m.minimumTtc, c.warningTtc) <==> d.warning)
            && (!m.safeFollowing <==> d.close) && (m.laneDeparture <==> d.off) && (m.redSignal <==> d.red)
            && plan.maneuver == Decide(m, c) && plan.alerts == Alerts(m, c)
  {
    hide CollidesWithin;
    hide LeadCloserThan;
    hide RedSeen;
    hide SeesRed;
    hide IsEgo;
    hide FindEgo;
    hide OffLane;
    hide AllowedOffset;
    hide CollisionTimes;
    hide LeadDistances;
    hide Least;
    hide Perceived;
    hide Decide;
    hide Alerts;
    hide Round6;
    hide AllLoad;
    hide AtMost;
    var ego := FindEgo(actors).value;
    EgoExactly(actors, ego);
    CollisionBound(p, ego, actors, predictions, c.emergencyTtc);
    CollisionBound(p, ego, actors, predictions, c.warningTtc);
    LeadBound(p, ego, actors, predictions, c.minimumFollowingDistance);
    OffLaneExactly(p.lane.value, ego, c);
    RedExactly(predictions);
  }

  /**
   * Which manoeuvre a scene leads to. It brakes at once exactly for a collision within the emergency time; otherwise
   * it stops exactly for a red signal; otherwise it brakes exactly for a collision within the warning time or for a
   * vehicle too close ahead; otherwise it steers back exactly when it is off its lane; otherwise it keeps the lane.
   */
  lemma ManoeuvreExactly(p: Pose, actors: seq<Actor>, predictions: seq<Prediction>, c: PlanCommand)
    requires Oriented(p) && Evaluate(p, actors, predictions, c).Ok?
    ensures FindEgo(actors).Some? && IsEgo(actors, FindEgo(actors).value) && p.lane.Some?
    ensures var d := DangersOf(p, p.lane.value, FindEgo(actors).value, actors, predictions, c);
            var chosen := Evaluate(p, actors, predictions, c).value.maneuver;
            && (chosen == EmergencyBrake <==> d.emergency)
            && (chosen == Stop <==> !d.emergency && d.red)
            && (chosen == Brake <==> !d.emergency && !d.red && (d.warning || d.close))
            && (chosen == LaneCentering <==> !d.emergency && !d.red && !d.warning && !d.close && d.off)
            && (chosen == MaintainLane <==> !d.emergency && !d.red && !d.warning && !d.close && !d.off)
  {
    hide DangersOf;
    hide Evaluate;
    hide AtMost;
    hide IsEgo;
    DangersInMetrics(p, actors, predictions, c);
  }

  /** The plan raises an alert of the kind, with the severity. */
  ghost predicate Alarms(plan: Plan, kind: AlertType, severity: Severity) {
    exists i :: 0 <= i < |plan.alerts| && plan.alerts[i] == Alert(kind, severity)
  }

  /** Which alerts a scene raises, and how severe they are: no others, and each at most once. */
  lemma AlarmsExactly(p: Pose, actors: seq<Actor>, predictions: seq<Prediction>, c: PlanCommand)
    requires c.Valid() && Oriented(p) && Evaluate(p, actors, predictions, c).Ok?
    ensures FindEgo(actors).Some? && p.lane.Some?
    ensures var d := DangersOf(p, p.lane.value, FindEgo(actors).value, actors, predictions, c);
            var plan := Evaluate(p, actors, predictions, c).value;
            && (Alarms(plan, ForwardCollision, Critical) <==> d.warning && d.emergency)
            && (Alarms(plan, ForwardCollision, Warning) <==> d.warning && !d.emergency)
            && (Alarms(plan, UnsafeFollowingDistance, Warning) <==> d.close)
            && (Alarms(plan, LaneDeparture, Warning) <==> d.off)
            && (Alarms(plan, RedSignal, Critical) <==> d.red)
            && !Alarms(plan, UnsafeFollowingDistance, Critical) && !Alarms(plan, LaneDeparture, Critical)
            && !Alarms(plan, RedSignal, Warning)
            && forall i, j :: 0 <= i < j < |plan.alerts| ==> plan.alerts[i].kind != plan.alerts[j].kind
  {
    hide DangersOf;
    hide Evaluate;
    hide AtMost;
    hide IsEgo;
    hide Decide;
    DangersInMetrics(p, actors, predictions, c);
    var plan := Evaluate(p, actors, predictions, c).value;
    AlertsExact(plan.metrics, c);
    forall kind ensures (Alarms(plan, kind, Critical) <==> Raises(plan, kind) && IsCritical(plan.metrics, c, kind))
                    && (Alarms(plan, kind, Warning) <==> Raises(plan, kind) && !IsCritical(plan.metrics, c, kind)) {
      AlarmOfKind(plan, c, kind);
    }
    hide Alerts;
    hide Alarms;
    hide Raises;
  }

  lemma AlarmOfKind(plan: Plan, c: PlanCommand, kind: AlertType)
    requires forall i :: 0 <= i < |plan.alerts| ==>
               (plan.alerts[i].severity.Critical? <==> IsCritical(plan.metrics, c, plan.alerts[i].kind))
    ensures Alarms(plan, kind, Critical) <==> Raises(plan, kind) && IsCritical(plan.metrics, c, kind)
    ensures Alarms(plan, kind, Warning) <==> Raises(plan, kind) && !IsCritical(plan.metrics, c, kind)
  {
    if i :| 0 <= i < |plan.alerts| && plan.alerts[i].kind == kind {
      assert plan.alerts[i] == Alert(kind, if IsCritical(plan.metrics, c, kind) then Critical else Warning);
    }
  }

  // ---------- the reported metrics ----------

  /** y is the rounded time of the first collision with a perceived actor. */
  ghost predicate FirstCollision(p: Pose, ego: Actor, actors: seq<Actor>, predictions: seq<Prediction>, y: real) {
    exists a, t :: a in actors && Named(predictions, a) && Collides(p, ego, a, t) && SixDecimals(y, t)
      && forall b, u :: b in actors && Named(predictions, b) && Collides(p, ego, b, u) ==> t <= u
  }

  /** y is the rounded distance of the nearest perceived vehicle ahead. */
  ghost predicate NearestLead(p: Pose, ego: Actor, actors: seq<Actor>, predictions: seq<Prediction>, y: real) {
    exists a, d :: a in actors && Named(predictions, a) && Leads(p, ego, a, d) && SixDecimals(y, d)
      && forall b, e :: b in actors && Named(predictions, b) && Leads(p, ego, b, e) ==> d <= e
  }

  lemma FirstCollisionExactly(p: Pose, ego: Actor, actors: seq<Actor>, predictions: seq<Prediction>)
    requires Oriented(p)
    ensures var x := RoundedOptional(Least(CollisionTimes(p, ego, Perceived(predictions), actors)));
            && (x.Some? ==> FirstCollision(p, ego, actors, predictions, x.value))
            && (x.None? ==> forall a, t :: a in actors && Named(predictions, a) ==> !Collides(p, ego, a, t))
  {
    hide Closing;
    hide TimeToCollision;
    hide Collides;
    hide Least;
    hide Round6;
    hide SixDecimals;
    hide CollisionTimes;
    hide Named;
    hide Perceived;
    var seen := Perceived(predictions);
    var times := CollisionTimes(p, ego, seen, actors);
    LeastExact(times);
    forall a, t | a in actors && Named(predictions, a) && Collides(p, ego, a, t) ensures t in times {
      NamedExactly(predictions, a);
      CollisionTimeExactly(p, ego, a, t);
      CollisionTimesExact(p, ego, seen, actors, t);
    }
    if times != [] {
      var least := Least(times).value;
      CollisionTimesExact(p, ego, seen, actors, least);
      var a :| a in actors && a.identifier in seen && Closing(p, ego, a) && TimeToCollision(p, ego, a) == least;
      NamedExactly(predictions, a);
      CollisionTimeExactly(p, ego, a, least);
      Round6Exactly(least, Round6(least));
    }
  }

  lemma NearestLeadExactly(p: Pose, ego: Actor, actors: seq<Actor>, predictions: seq<Prediction>)
    requires Oriented(p)
    ensures var x := RoundedOptional(Least(LeadDistances(p, ego, Perceived(predictions), actors)));
            && (x.Some? ==> NearestLead(p, ego, actors, predictions, x.value))
            && (x.None? ==> forall a, d :: a in actors && Named(predictions, a) ==> !Leads(p, ego, a, d))
  {
    hide Leading;
    hide Longitudinal;
    hide Leads;
    hide Least;
    hide Round6;
    hide SixDecimals;
    hide LeadDistances;
    hide Named;
    hide Perceived;
    var seen := Perceived(predictions);
    var leads := LeadDistances(p, ego, seen, actors);
    LeastExact(leads);
    forall a, d | a in actors && Named(predictions, a) && Leads(p, ego, a, d) ensures d in leads {
      NamedExactly(predictions, a);
      LeadingExactly(p, ego, a, d);
      LeadDistancesExact(p, ego, seen, actors, d);
    }
    if leads != [] {
      var least := Least(leads).value;
      LeadDistancesExact(p, ego, seen, actors, least);
      var a :| a in actors && a.identifier in seen && Leading(p, ego, a) && Longitudinal(p, ego, a) == least;
      NamedExactly(predictions, a);
      LeadingExactly(p, ego, a, least);
      Round6Exactly(least, Round6(least));
    }
  }

  /** The metrics report the first collision, the nearest vehicle ahead and the lane offset, or that there are none. */
  lemma MetricsExactly(p: Pose, actors: seq<Actor>, predictions: seq<Prediction>, c: PlanCommand)
    requires Oriented(p) && Evaluate(p, actors, predictions, c).Ok?
    ensures FindEgo(actors).Some? && p.lane.Some?
    ensures var m, ego := Evaluate(p, actors, predictions, c).value.metrics, FindEgo(actors).value;
            && (m.minimumTtc.Some? ==> FirstCollision(p, ego, actors, predictions, m.minimumTtc.value))
            && (m.minimumTtc.None? ==> forall a, t :: a in actors && Named(predictions, a) ==> !Collides(p, ego, a, t))
            && (m.nearestLead.Some? ==> NearestLead(p, ego, actors, predictions, m.nearestLead.value))
            && (m.nearestLead.None? ==> forall a, d :: a in actors && Named(predictions, a) ==> !Leads(p, ego, a, d))
            && SixDecimals(m.laneOffset, p.lane.value.offset)
  {
    hide FirstCollision;
    hide NearestLead;
    hide Collides;
    hide Leads;
    hide Named;
    hide SixDecimals;
    hide Round6;
    hide FindEgo;
    hide CollisionTimes;
    hide LeadDistances;
    hide Least;
    hide Perceived;
    hide SeesRed;
    hide AllLoad;
    hide Decide;
    hide Alerts;
    hide AllowedOffset;
    var ego := FindEgo(actors).value;
    FirstCollisionExactly(p, ego, actors, predictions);
    NearestLeadExactly(p, ego, actors, predictions);
    Round6Exactly(p.lane.value.offset, Round6(p.lane.value.offset));
  }

  function Place(kind: AlertType): nat {
    match kind
    case ForwardCollision => 0
    case UnsafeFollowingDistance => 1
    case LaneDeparture => 2
    case RedSignal => 3
  }

  /** Alerts are listed in one order, whatever the scene. */
  lemma AlertsInOrder(m: Metrics, c: PlanCommand, i: nat, j: nat)
    requires i < j < |Alerts(m, c)|
    ensures Place(Alerts(m, c)[i].kind) < Place(Alerts(m, c)[j].kind)
  {
    hide AtMost;
  }

  // ---------- injected faults ----------

  /** The last fault that names the prediction. */
  ghost predicate FaultOf(faults: seq<Fault>, id: string, f: Fault) {
    exists i :: 0 <= i < |faults| && faults[i] == f && f.prediction == id
      && forall j :: i < j < |faults| ==> faults[j].prediction != id
  }

  ghost predicate Unfaulted(faults: seq<Fault>, id: string) {
    forall i :: 0 <= i < |faults| ==> faults[i].prediction != id
  }

  lemma {:induction false} FaultMapExactly(faults: seq<Fault>, id: string)
    ensures id !in FaultMap(faults) <==> Unfaulted(faults, id)
    ensures id in FaultMap(faults) ==> FaultOf(faults, id, FaultMap(faults)[id])
  {
    if faults != [] {
      var last := |faults| - 1;
      FaultMapExactly(faults[..last], id);
      OneMoreFault(faults[..last], faults[last], id);
      assert faults == faults[..last] + [faults[last]];
      hide FaultOf;
      hide Unfaulted;
    }
  }

  lemma OneMoreFault(faults: seq<Fault>, f: Fault, id: string)
    ensures f.prediction == id ==> FaultOf(faults + [f], id, f) && !Unfaulted(faults + [f], id)
    ensures f.prediction != id ==> (Unfaulted(faults + [f], id) <==> Unfaulted(faults, id))
    ensures f.prediction != id ==> forall g :: FaultOf(faults, id, g) ==> FaultOf(faults + [f], id, g)
  {
    assert (faults + [f])[|faults|] == f;
    forall g | f.prediction != id && FaultOf(faults, id, g) ensures FaultOf(faults + [f], id, g) {
      var i :| 0 <= i < |faults| && faults[i] == g && g.prediction == id
               && forall j :: i < j < |faults| ==> faults[j].prediction != id;
      assert (faults + [f])[i] == g;
    }
    if f.prediction != id && Unfaulted(faults + [f], id) {
      assert forall i :: 0 <= i < |faults| ==> (faults + [f])[i] == faults[i];
    }
  }

  /** r is the prediction q after its fault: itself without one, and reclassified by a misclassification. */
  ghost predicate Becomes(faults: seq<Fault>, q: Prediction, r: Prediction) {
    || (Unfaulted(faults, q.identifier) && r == q)
    || exists f :: FaultOf(faults, q.identifier, f) && f.Misclassify? && r == q.(classification := f.replacement)
  }

  ghost predicate Vanishes(faults: seq<Fault>, q: Prediction) {
    exists f :: FaultOf(faults, q.identifier, f) && f.Drop?
  }

  /** Output k is what became of prediction from[k], in order, and every other of the first n predictions vanished. */
  ghost predicate Remains(predictions: seq<Prediction>, faults: seq<Fault>, n: nat, output: seq<Prediction>,
                          from: seq<nat>)
    requires n <= |predictions|
  {
    && |from| == |output|
    && (forall k :: 0 <= k < |from| ==> from[k] < n && Becomes(faults, predictions[from[k]], output[k]))
    && (forall k, m :: 0 <= k < m < |from| ==> from[k] < from[m])
    && (forall i: nat :: i < n && i !in from ==> Vanishes(faults, predictions[i]))
  }

  lemma {:induction false} FaultedRemains(predictions: seq<Prediction>, faults: seq<Fault>, n: nat)
    returns (from: seq<nat>)
    requires n <= |predictions|
    ensures Remains(predictions, faults, n, FaultedUpTo(predictions, FaultMap(faults), n), from)
  {
    hide Remains;
    if n == 0 {
      from := [];
      NothingRemains(predictions, faults);
    } else {
      from := FaultedRemains(predictions, faults, n - 1);
      var q, output := predictions[n - 1], FaultedUpTo(predictions, FaultMap(faults), n - 1);
      FaultedBecomes(faults, q);
      hide FaultMap;
      hide Faulted;
      if Faulted(q, FaultMap(faults)) == [] {
        OneLess(predictions, faults, n, output, from);
        assert output + [] == output;
      } else {
        OneMore(predictions, faults, n, output, from, Faulted(q, FaultMap(faults))[0]);
        from := from + [n - 1];
      }
    }
  }

  lemma NothingRemains(predictions: seq<Prediction>, faults: seq<Fault>)
    ensures Remains(predictions, faults, 0, [], [])
  {}

  lemma FaultedBecomes(faults: seq<Fault>, q: Prediction)
    ensures var r := Faulted(q, FaultMap(faults));
            (r == [] && Vanishes(faults, q)) || (|r| == 1 && Becomes(faults, q, r[0]))
  {
    hide FaultOf;
    hide Unfaulted;
    FaultMapExactly(faults, q.identifier);
    hide FaultMap;
  }

  lemma OneLess(predictions: seq<Prediction>, faults: seq<Fault>, n: nat, output: seq<Prediction>, from: seq<nat>)
    requires 0 < n <= |predictions| && Remains(predictions, faults, n - 1, output, from)
    requires Vanishes(faults, predictions[n - 1])
    ensures Remains(predictions, faults, n, output, from)
  {
    hide Vanishes;
    hide Becomes;
  }

  lemma OneMore(predictions: seq<Prediction>, faults: seq<Fault>, n: nat, output: seq<Prediction>, from: seq<nat>,
                r: Prediction)
    requires 0 < n <= |predictions| && Remains(predictions, faults, n - 1, output, from)
    requires Becomes(faults, predictions[n - 1], r)
    ensures Remains(predictions, faults, n, output + [r], from + [n - 1])
  {
    hide Vanishes;
    hide Becomes;
    forall i: nat | i < n && i !in from + [n - 1] ensures Vanishes(faults, predictions[i]) {
      assert i != n - 1 by { assert (from + [n - 1])[|from|] == n - 1; }
      assert i !in from;
    }
  }

  /**
   * Injection fails exactly when some fault names no prediction, reporting those that do not. Otherwise it drops
   * exactly the predictions whose fault says so, reclassifies exactly those whose fault says so, and keeps the
   * others as they are, all in order.
   */
  lemma InjectExactly(predictions: seq<Prediction>, faults: seq<Fault>)
    ensures var r := Inject(predictions, faults);
            && (r.Ok? <==> forall f :: f in faults ==> exists q :: q in predictions && q.identifier == f.prediction)
            && (r.Ok? ==> exists from :: Remains(predictions, faults, |predictions|, r.value, from))
            && (r.Err? ==> forall id :: id in r.error <==>
                  (exists f :: f in faults && f.prediction == id)
                  && forall q :: q in predictions ==> q.identifier != id)
  {
    var from := FaultedRemains(predictions, faults, |predictions|);
    hide Remains;
    hide FaultedUpTo;
    var unknown := UnknownPredictions(predictions, faults);
    forall f | f in faults
      ensures f.prediction in unknown <==> forall q :: q in predictions ==> q.identifier != f.prediction
    {
    }
  }
}

/**
 * Risk-based manoeuvre planning on perceived actors, and planning under injected perception faults. The
 * heading's cosine and sine and the ego vehicle's distance to its lane are given as reals; LaneKeeping says
 * which distance it is.
 */
module Planner {
  import opened AdasSchemas
  import opened Basics
  import opened Rounding

  datatype Prediction = Prediction(
    identifier: string,
    target: Target,
    groundTruthId: string,
    classification: string)

  /** The ego vehicle's pose: its heading as a unit vector, and its lane if the scene has it. */
  datatype Pose = Pose(cosine: real, sine: real, lane: Option<LaneGeometry>)

  datatype LaneGeometry = LaneGeometry(offset: real, width: real)

  datatype PlanCommand = PlanCommand(
    minimumFollowingDistance: real,
    warningTtc: real,
    emergencyTtc: real,
    laneMargin: real)
  {
    predicate Valid() { emergencyTtc < warningTtc }
  }

  datatype Metrics = Metrics(
    nearestLead: Option<real>,
    minimumTtc: Option<real>,
    laneOffset: real,
    safeFollowing: bool,
    laneDeparture: bool,
    redSignal: bool)

  datatype Maneuver = MaintainLane | LaneCentering | Brake | Stop | EmergencyBrake

  datatype AlertType = ForwardCollision | UnsafeFollowingDistance | LaneDeparture | RedSignal

  datatype Severity = Warning | Critical

  datatype Alert = Alert(kind: AlertType, severity: Severity)

  datatype Plan = Plan(metrics: Metrics, maneuver: Maneuver, alerts: seq<Alert>)

  datatype PlanError = InvalidActor | NoEgo | NoLane

  // ---------- geometry ----------

  function FindEgo(actors: seq<Actor>): Option<Actor> {
    if actors == [] then None
    else if actors[0].kind.EgoVehicle? then Some(actors[0])
    else FindEgo(actors[1..])
  }

  function Longitudinal(p: Pose, ego: Actor, a: Actor): real {
    (a.position.x - ego.position.x) * p.cosine + (a.position.y - ego.position.y) * p.sine
  }

  function Lateral(p: Pose, ego: Actor, a: Actor): real {
    (a.position.y - ego.position.y) * p.cosine - (a.position.x - ego.position.x) * p.sine
  }

  function ForwardSpeed(p: Pose, a: Actor): real {
    a.velocity.x * p.cosine + a.velocity.y * p.sine
  }

  function Abs(x: real): real {
    if x < 0.0 then 0.0 - x else x
  }

  /** In front of the ego vehicle and within its path. */
  predicate InPath(p: Pose, ego: Actor, a: Actor) {
    Longitudinal(p, ego, a) > 0.0 && Abs(Lateral(p, ego, a)) <= (ego.width + a.width) / 2.0
  }

  function ClosingSpeed(p: Pose, ego: Actor, a: Actor): real {
    ForwardSpeed(p, ego) - ForwardSpeed(p, a)
  }

  predicate Closing(p: Pose, ego: Actor, a: Actor) {
    InPath(p, ego, a) && ClosingSpeed(p, ego, a) > 0.0
  }

  function TimeToCollision(p: Pose, ego: Actor, a: Actor): real
    requires Closing(p, ego, a)
  {
    Longitudinal(p, ego, a) / ClosingSpeed(p, ego, a)
  }

  predicate Leading(p: Pose, ego: Actor, a: Actor) {
    InPath(p, ego, a) && a.kind.Vehicle?
  }

  // ---------- what is perceived ----------

  /** The actors some object or pedestrian prediction refers to. */
  function Perceived(predictions: seq<Prediction>): set<string> {
    set q | q in predictions && (q.target.ObjectTarget? || q.target.PedestrianTarget?) :: q.groundTruthId
  }

  predicate SeesRed(predictions: seq<Prediction>) {
    exists q :: q in predictions && q.target.SignalTarget? && q.classification == "red"
  }

  /** Times to collision with the perceived actors the ego vehicle is closing in on. */
  function CollisionTimes(p: Pose, ego: Actor, seen: set<string>, actors: seq<Actor>): seq<real> {
    if actors == [] then [] else
      var last := actors[|actors| - 1];
      CollisionTimes(p, ego, seen, actors[..|actors| - 1]) +
      (if last.identifier in seen && Closing(p, ego, last) then [TimeToCollision(p, ego, last)] else [])
  }

  /** Distances of the perceived vehicles in the ego vehicle's path. */
  function LeadDistances(p: Pose, ego: Actor, seen: set<string>, actors: seq<Actor>): seq<real> {
    if actors == [] then [] else
      var last := actors[|actors| - 1];
      LeadDistances(p, ego, seen, actors[..|actors| - 1]) +
      (if last.identifier in seen && Leading(p, ego, last) then [Longitudinal(p, ego, last)] else [])
  }

  function Lower(least: Option<real>, x: real): Option<real> {
    Some(if least.Some? && least.value <= x then least.value else x)
  }

  /** The running minimum of the values, none without values. */
  function Least(values: seq<real>): Option<real> {
    if values == [] then None else Lower(Least(values[..|values| - 1]), values[|values| - 1])
  }

  lemma {:induction false} LeastExact(values: seq<real>)
    ensures Least(values).None? <==> values == []
    ensures Least(values).Some? ==>
              Least(values).value in values && forall x :: x in values ==> Least(values).value <= x
  {
    if values != [] {
      LeastExact(values[..|values| - 1]);
      assert values == values[..|values| - 1] + [values[|values| - 1]];
    }
  }

  lemma {:induction false} CollisionTimesExact(p: Pose, ego: Actor, seen: set<string>, actors: seq<Actor>, t: real)
    ensures t in CollisionTimes(p, ego, seen, actors) <==>
            exists a :: a in actors && a.identifier in seen && Closing(p, ego, a) && TimeToCollision(p, ego, a) == t
  {
    hide Closing;
    hide TimeToCollision;
    if actors != [] {
      CollisionTimesExact(p, ego, seen, actors[..|actors| - 1], t);
      assert actors == actors[..|actors| - 1] + [actors[|actors| - 1]];
    }
  }

  lemma {:induction false} LeadDistancesExact(p: Pose, ego: Actor, seen: set<string>, actors: seq<Actor>, d: real)
    ensures d in LeadDistances(p, ego, seen, actors) <==>
            exists a :: a in actors && a.identifier in seen && Leading(p, ego, a) && Longitudinal(p, ego, a) == d
  {
    hide Leading;
    hide Longitudinal;
    if actors != [] {
      LeadDistancesExact(p, ego, seen, actors[..|actors| - 1], d);
      assert actors == actors[..|actors| - 1] + [actors[|actors| - 1]];
    }
  }

  // ---------- the plan ----------

  function RoundedOptional(x: Option<real>): Option<real> {
    if x.Some? then Some(Round6(x.value)) else None
  }

  predicate AtMost(x: Option<real>, bound: real) {
    x.Some? && x.value <= bound
  }

  function AllowedOffset(lane: LaneGeometry, ego: Actor, c: PlanCommand): real {
    var slack := (lane.width - ego.width) / 2.0 - c.laneMargin;
    if slack > 0.0 then slack else 0.0
  }

  function MetricsOf(ttc: Option<real>, lead: Option<real>, red: bool, lane: LaneGeometry, ego: Actor,
                     c: PlanCommand): Metrics {
    Metrics(RoundedOptional(lead), RoundedOptional(ttc), Round6(lane.offset),
            lead.None? || lead.value >= c.minimumFollowingDistance, lane.offset > AllowedOffset(lane, ego, c), red)
  }

  function Decide(m: Metrics, c: PlanCommand): Maneuver {
    if AtMost(m.minimumTtc, c.emergencyTtc) then EmergencyBrake
    else if m.redSignal then Stop
    else if AtMost(m.minimumTtc, c.warningTtc) || !m.safeFollowing then Brake
    else if m.laneDeparture then LaneCentering
    else MaintainLane
  }

  function Alerts(m: Metrics, c: PlanCommand): seq<Alert> {
    (if AtMost(m.minimumTtc, c.warningTtc)
     then [Alert(ForwardCollision, if AtMost(m.minimumTtc, c.emergencyTtc) then Critical else Warning)] else []) +
    (if !m.safeFollowing then [Alert(UnsafeFollowingDistance, Warning)] else []) +
    (if m.laneDeparture then [Alert(LaneDeparture, Warning)] else []) +
    (if m.redSignal then [Alert(RedSignal, Critical)] else [])
  }

  function PlanFor(p: Pose, ego: Actor, lane: LaneGeometry, actors: seq<Actor>, seen: set<string>, red: bool,
                   c: PlanCommand): Plan {
    var m := MetricsOf(Least(CollisionTimes(p, ego, seen, actors)), Least(LeadDistances(p, ego, seen, actors)),
                       red, lane, ego, c);
    Plan(m, Decide(m, c), Alerts(m, c))
  }

  function Evaluate(p: Pose, actors: seq<Actor>, predictions: seq<Prediction>,
                    c: PlanCommand): Result<Plan, PlanError> {
    if !AllLoad(actors) then Err(InvalidActor)
    else if FindEgo(actors).None? then Err(NoEgo)
    else if p.lane.None? then Err(NoLane)
    else Ok(PlanFor(p, FindEgo(actors).value, p.lane.value, actors, Perceived(predictions), SeesRed(predictions), c))
  }

  lemma ScanOneMore(p: Pose, ego: Actor, seen: set<string>, actors: seq<Actor>, k: nat)
    requires k < |actors|
    ensures var a := actors[k];
            && CollisionTimes(p, ego, seen, actors[..k + 1]) ==
               CollisionTimes(p, ego, seen, actors[..k]) +
               (if a.identifier in seen && Closing(p, ego, a) then [TimeToCollision(p, ego, a)] else [])
            && LeadDistances(p, ego, seen, actors[..k + 1]) ==
               LeadDistances(p, ego, seen, actors[..k]) +
               (if a.identifier in seen && Leading(p, ego, a) then [Longitudinal(p, ego, a)] else [])
  {
    hide Closing;
    hide Leading;
    hide TimeToCollision;
    hide Longitudinal;
    assert actors[..k + 1][..k] == actors[..k];
  }

  /** The running minima over the perceived actors, in scene order. */
  method ScanActors(p: Pose, ego: Actor, actors: seq<Actor>, seen: set<string>)
    returns (minimumTtc: Option<real>, nearestLead: Option<real>)
    ensures minimumTtc == Least(CollisionTimes(p, ego, seen, actors))
    ensures nearestLead == Least(LeadDistances(p, ego, seen, actors))
  {
    hide InPath;
    hide ClosingSpeed;
    hide Longitudinal;
    hide TimeToCollision;
    hide Least;
    hide Lower;
    minimumTtc, nearestLead := None, None;
    assert Least([]) == None by { LeastExact([]); }
    assert actors[..0] == [];
    for k := 0 to |actors|
      invariant minimumTtc == Least(CollisionTimes(p, ego, seen, actors[..k]))
      invariant nearestLead == Least(LeadDistances(p, ego, seen, actors[..k]))
    {
      hide CollisionTimes;
      hide LeadDistances;
      var actor := actors[k];
      ScanOneMore(p, ego, seen, actors, k);
      ghost var times, leads := CollisionTimes(p, ego, seen, actors[..k]), LeadDistances(p, ego, seen, actors[..k]);
      assert times + [] == times && leads + [] == leads;
      if actor.identifier in seen && InPath(p, ego, actor) {
        var closing := ClosingSpeed(p, ego, actor);
        if closing > 0.0 {
          var ttc := TimeToCollision(p, ego, actor);
          LeastAppend(times, ttc);
          minimumTtc := Lower(minimumTtc, ttc);
        }
        if actor.kind.Vehicle? {
          LeastAppend(leads, Longitudinal(p, ego, actor));
          nearestLead := Lower(nearestLead, Longitudinal(p, ego, actor));
        }
      }
    }
    assert actors[..|actors|] == actors;
  }

  lemma LeastAppend(values: seq<real>, x: real)
    ensures Least(values + [x]) == Lower(Least(values), x)
  {}

  method ListAlerts(m: Metrics, c: PlanCommand) returns (alerts: seq<Alert>)
    ensures alerts == Alerts(m, c)
  {
    alerts := [];
    if AtMost(m.minimumTtc, c.warningTtc) {
      var severity := if AtMost(m.minimumTtc, c.emergencyTtc) then Critical else Warning;
      alerts := alerts + [Alert(ForwardCollision, severity)];
    }
    if !m.safeFollowing {
      alerts := alerts + [Alert(UnsafeFollowingDistance, Warning)];
    }
    if m.laneDeparture {
      alerts := alerts + [Alert(LaneDeparture, Warning)];
    }
    if m.redSignal {
      alerts := alerts + [Alert(RedSignal, Critical)];
    }
  }

  method EvaluatePlan(p: Pose, actors: seq<Actor>, predictions: seq<Prediction>, c: PlanCommand)
    returns (r: Result<Plan, PlanError>)
    ensures r == Evaluate(p, actors, predictions, c)
  {
    hide CollisionTimes;
    hide LeadDistances;
    hide Alerts;
    hide Decide;
    for k := 0 to |actors|
      invariant forall i :: 0 <= i < k ==> actors[i].Loads()
    {
      if !actors[k].Loads() {
        return Err(InvalidActor);
      }
    }
    var found := FindEgo(actors);
    if found.None? {
      return Err(NoEgo);
    }
    if p.lane.None? {
      return Err(NoLane);
    }
    var ego, lane := found.value, p.lane.value;
    var minimumTtc, nearestLead := ScanActors(p, ego, actors, Perceived(predictions));
    var metrics := MetricsOf(minimumTtc, nearestLead, SeesRed(predictions), lane, ego, c);
    var alerts := ListAlerts(metrics, c);
    return Ok(Plan(metrics, Decide(metrics, c), alerts));
  }

  // ---------- what a plan promises ----------

  predicate Raises(p: Plan, kind: AlertType) {
    exists i :: 0 <= i < |p.alerts| && p.alerts[i].kind == kind
  }

  /** When an alert of the given kind is due. */
  predicate Due(m: Metrics, c: PlanCommand, kind: AlertType) {
    match kind
    case ForwardCollision => AtMost(m.minimumTtc, c.warningTtc)
    case UnsafeFollowingDistance => !m.safeFollowing
    case LaneDeparture => m.laneDeparture
    case RedSignal => m.redSignal
  }

  predicate IsCritical(m: Metrics, c: PlanCommand, kind: AlertType) {
    kind.RedSignal? || (kind.ForwardCollision? && AtMost(m.minimumTtc, c.emergencyTtc))
  }

  /** Each kind of alert is raised exactly when it is due, once, and with its severity. */
  lemma AlertsExact(m: Metrics, c: PlanCommand)
    requires c.Valid()
    ensures var p := Plan(m, Decide(m, c), Alerts(m, c));
            && (forall kind :: Raises(p, kind) <==> Due(m, c, kind))
            && (forall i, j :: 0 <= i < j < |p.alerts| ==> p.alerts[i].kind != p.alerts[j].kind)
            && (forall i :: 0 <= i < |p.alerts| ==>
                (p.alerts[i].severity.Critical? <==> IsCritical(m, c, p.alerts[i].kind)))
  {
    hide AtMost;
    var p := Plan(m, Decide(m, c), Alerts(m, c));
    var a := if AtMost(m.minimumTtc, c.warningTtc) then 1 else 0;
    var b := a + if !m.safeFollowing then 1 else 0;
    var d := b + if m.laneDeparture then 1 else 0;
    assert AtMost(m.minimumTtc, c.warningTtc) ==> p.alerts[0].kind == ForwardCollision;
    assert !m.safeFollowing ==> p.alerts[a].kind == UnsafeFollowingDistance;
    assert m.laneDeparture ==> p.alerts[b].kind == LaneDeparture;
    assert m.redSignal ==> p.alerts[d].kind == RedSignal;
  }

  lemma MaintainsLaneIffNoAlerts(m: Metrics, c: PlanCommand)
    requires c.Valid()
    ensures Decide(m, c).MaintainLane? <==> Alerts(m, c) == []
  {}

  /** The perceived actors leave the time and the distance that the command asks for. */
  ghost predicate KeepClear(p: Pose, ego: Actor, actors: seq<Actor>, seen: set<string>, c: PlanCommand) {
    && (forall a :: a in actors && a.identifier in seen && Closing(p, ego, a) ==>
        c.warningTtc < Round6(TimeToCollision(p, ego, a)))
    && (forall a :: a in actors && a.identifier in seen && Leading(p, ego, a) ==>
        c.minimumFollowingDistance <= Longitudinal(p, ego, a))
  }

  lemma ClearByMinima(p: Pose, ego: Actor, actors: seq<Actor>, seen: set<string>, c: PlanCommand)
    ensures var ttc, lead := Least(CollisionTimes(p, ego, seen, actors)), Least(LeadDistances(p, ego, seen, actors));
            KeepClear(p, ego, actors, seen, c) <==>
            !AtMost(RoundedOptional(ttc), c.warningTtc) && (lead.None? || lead.value >= c.minimumFollowingDistance)
  {
    hide Closing;
    hide Leading;
    hide TimeToCollision;
    hide Longitudinal;
    hide Round6;
    hide Least;
    hide CollisionTimes;
    hide LeadDistances;
    var times, leads := CollisionTimes(p, ego, seen, actors), LeadDistances(p, ego, seen, actors);
    LeastExact(times);
    LeastExact(leads);
    if KeepClear(p, ego, actors, seen, c) {
      if times != [] {
        CollisionTimesExact(p, ego, seen, actors, Least(times).value);
      }
      if leads != [] {
        LeadDistancesExact(p, ego, seen, actors, Least(leads).value);
      }
    }
    forall a | a in actors && a.identifier in seen && Closing(p, ego, a)
      ensures times != [] && Round6(Least(times).value) <= Round6(TimeToCollision(p, ego, a))
    {
      CollisionTimesExact(p, ego, seen, actors, TimeToCollision(p, ego, a));
      Round6Monotone(Least(times).value, TimeToCollision(p, ego, a));
    }
    forall a | a in actors && a.identifier in seen && Leading(p, ego, a)
      ensures leads != [] && Least(leads).value <= Longitudinal(p, ego, a)
    {
      LeadDistancesExact(p, ego, seen, actors, Longitudinal(p, ego, a));
    }
  }

  /**
   * The vehicle keeps its lane exactly when there is no alert, and that is exactly when every perceived actor
   * leaves it the warning time and the following distance, it is within its lane, and no red signal is seen.
   */
  lemma MaintainsLaneExactly(p: Pose, actors: seq<Actor>, predictions: seq<Prediction>, c: PlanCommand)
    requires c.Valid() && Evaluate(p, actors, predictions, c).Ok?
    ensures FindEgo(actors).Some? && p.lane.Some?
    ensures var plan := Evaluate(p, actors, predictions, c).value;
            var ego, lane := FindEgo(actors).value, p.lane.value;
            && (plan.maneuver.MaintainLane? <==> plan.alerts == [])
            && (plan.maneuver.MaintainLane? <==>
                  && KeepClear(p, ego, actors, Perceived(predictions), c)
                  && lane.offset <= AllowedOffset(lane, ego, c) && !SeesRed(predictions))
  {
    hide KeepClear;
    hide CollisionTimes;
    hide LeadDistances;
    hide Least;
    hide Round6;
    hide AllowedOffset;
    hide SeesRed;
    hide Perceived;
    hide AllLoad;
    hide FindEgo;
    var plan := Evaluate(p, actors, predictions, c).value;
    ClearByMinima(p, FindEgo(actors).value, actors, Perceived(predictions), c);
    MaintainsLaneIffNoAlerts(plan.metrics, c);
    hide Alerts;
  }

  lemma TimesPositive(p: Pose, ego: Actor, seen: set<string>, actors: seq<Actor>, t: real)
    ensures t in CollisionTimes(p, ego, seen, actors) || t in LeadDistances(p, ego, seen, actors) ==> t > 0.0
  {
    CollisionTimesExact(p, ego, seen, actors, t);
    LeadDistancesExact(p, ego, seen, actors, t);
    hide CollisionTimes;
    hide LeadDistances;
    hide Longitudinal;
    hide ClosingSpeed;
  }

  predicate NotNegative(x: Option<real>) {
    x.Some? ==> x.value >= 0.0
  }

  lemma RoundedNotNegative(x: real)
    requires x >= 0.0
    ensures Round6(x) >= 0.0
  {
    assert Round6(0.0) == 0.0;
    Round6Monotone(0.0, x);
  }

  /** The reported distances and times are never negative, so the metrics always pass the schema's checks. */
  lemma MetricsInSchema(p: Pose, actors: seq<Actor>, predictions: seq<Prediction>, c: PlanCommand)
    requires Evaluate(p, actors, predictions, c).Ok? && p.lane.value.offset >= 0.0
    ensures var m := Evaluate(p, actors, predictions, c).value.metrics;
            NotNegative(m.nearestLead) && NotNegative(m.minimumTtc) && m.laneOffset >= 0.0
  {
    var ego, seen := FindEgo(actors).value, Perceived(predictions);
    var times, leads := CollisionTimes(p, ego, seen, actors), LeadDistances(p, ego, seen, actors);
    LeastExact(times);
    LeastExact(leads);
    if Least(times).Some? {
      TimesPositive(p, ego, seen, actors, Least(times).value);
      RoundedNotNegative(Least(times).value);
    }
    if Least(leads).Some? {
      TimesPositive(p, ego, seen, actors, Least(leads).value);
      RoundedNotNegative(Least(leads).value);
    }
    RoundedNotNegative(p.lane.value.offset);
    hide CollisionTimes;
    hide LeadDistances;
    hide Least;
    hide Round6;
  }

  function Urgency(m: Maneuver): nat {
    match m
    case MaintainLane => 0
    case LaneCentering => 1
    case Brake => 2
    case Stop => 3
    case EmergencyBrake => 4
  }

  /** x is a greater or missing minimum compared with y. */
  predicate NoCloser(x: Option<real>, y: Option<real>) {
    x.Some? ==> y.Some? && y.value <= x.value
  }

  lemma FewerIsNoCloser(few: seq<real>, many: seq<real>)
    requires forall x :: x in few ==> x in many
    ensures NoCloser(Least(few), Least(many))
  {
    LeastExact(few);
    LeastExact(many);
  }

  lemma SeeingLessIsNoCloser(p: Pose, ego: Actor, actors: seq<Actor>, seen: set<string>, more: set<string>)
    requires seen <= more
    ensures NoCloser(Least(CollisionTimes(p, ego, seen, actors)), Least(CollisionTimes(p, ego, more, actors)))
    ensures NoCloser(Least(LeadDistances(p, ego, seen, actors)), Least(LeadDistances(p, ego, more, actors)))
  {
    hide Closing;
    hide Leading;
    hide TimeToCollision;
    hide Longitudinal;
    forall t | t in CollisionTimes(p, ego, seen, actors) ensures t in CollisionTimes(p, ego, more, actors) {
      CollisionTimesExact(p, ego, seen, actors, t);
      CollisionTimesExact(p, ego, more, actors, t);
    }
    forall d | d in LeadDistances(p, ego, seen, actors) ensures d in LeadDistances(p, ego, more, actors) {
      LeadDistancesExact(p, ego, seen, actors, d);
      LeadDistancesExact(p, ego, more, actors, d);
    }
    FewerIsNoCloser(CollisionTimes(p, ego, seen, actors), CollisionTimes(p, ego, more, actors));
    FewerIsNoCloser(LeadDistances(p, ego, seen, actors), LeadDistances(p, ego, more, actors));
  }

  /** p alerts no more than q, no more severely, and reacts no more urgently. */
  ghost predicate NoMoreUrgent(p: Plan, q: Plan) {
    && (forall i :: 0 <= i < |p.alerts| ==> Raises(q, p.alerts[i].kind))
    && (forall i, j :: 0 <= i < |p.alerts| && 0 <= j < |q.alerts| && p.alerts[i].kind == q.alerts[j].kind ==>
          (p.alerts[i].severity.Critical? ==> q.alerts[j].severity.Critical?))
    && Urgency(p.maneuver) <= Urgency(q.maneuver)
  }

  /** The conditions of m that lead to alerts and manoeuvres all hold of n as well. */
  predicate NoRiskier(m: Metrics, n: Metrics, c: PlanCommand) {
    && (AtMost(m.minimumTtc, c.emergencyTtc) ==> AtMost(n.minimumTtc, c.emergencyTtc))
    && (AtMost(m.minimumTtc, c.warningTtc) ==> AtMost(n.minimumTtc, c.warningTtc))
    && (!m.safeFollowing ==> !n.safeFollowing)
    && m.laneDeparture == n.laneDeparture
  }

  lemma LessRiskSlower(m: Metrics, n: Metrics, c: PlanCommand)
    requires NoRiskier(m, n, c) && (m.redSignal ==> n.redSignal)
    ensures Urgency(Decide(m, c)) <= Urgency(Decide(n, c))
  {}

  lemma LessRiskLessDue(m: Metrics, n: Metrics, c: PlanCommand, kind: AlertType)
    requires NoRiskier(m, n, c)
    ensures Due(m, c, kind) && kind != RedSignal ==> Due(n, c, kind)
    ensures IsCritical(m, c, kind) ==> IsCritical(n, c, kind)
  {}

  lemma LessRiskLessUrgency(m: Metrics, n: Metrics, c: PlanCommand)
    requires c.Valid() && NoRiskier(m, n, c)
    ensures NoMoreUrgent(Plan(m, Decide(m, c), Alerts(m, c)), Plan(n, Decide(n, c), Alerts(n, c))) <==>
            (m.redSignal ==> n.redSignal)
  {
    AlertsExact(m, c);
    AlertsExact(n, c);
    var p, q := Plan(m, Decide(m, c), Alerts(m, c)), Plan(n, Decide(n, c), Alerts(n, c));
    if m.redSignal && !n.redSignal {
      assert Raises(p, RedSignal) && !Raises(q, RedSignal);
    } else {
      LessRiskSlower(m, n, c);
      hide Alerts;
      hide AtMost;
      hide Decide;
      forall i | 0 <= i < |p.alerts| ensures Raises(q, p.alerts[i].kind) {
        assert Raises(p, p.alerts[i].kind);
        LessRiskLessDue(m, n, c, p.alerts[i].kind);
      }
      forall i, j | 0 <= i < |p.alerts| && 0 <= j < |q.alerts| && p.alerts[i].kind == q.alerts[j].kind
        ensures p.alerts[i].severity.Critical? ==> q.alerts[j].severity.Critical?
      {
        LessRiskLessDue(m, n, c, p.alerts[i].kind);
      }
    }
  }

  /**
   * Seeing fewer actors never makes the plan more urgent; the plan stays no more urgent exactly as long as
   * no red signal is seen that was not seen before.
   */
  lemma SeeingLess(p: Pose, ego: Actor, lane: LaneGeometry, actors: seq<Actor>, seen: set<string>, more: set<string>,
                   red: bool, redBefore: bool, c: PlanCommand)
    requires c.Valid() && seen <= more
    ensures NoMoreUrgent(PlanFor(p, ego, lane, actors, seen, red, c),
                         PlanFor(p, ego, lane, actors, more, redBefore, c)) <==>
            (red ==> redBefore)
  {
    SeeingLessIsNoCloser(p, ego, actors, seen, more);
    var t, u := Least(CollisionTimes(p, ego, seen, actors)), Least(CollisionTimes(p, ego, more, actors));
    if t.Some? {
      Round6Monotone(u.value, t.value);
    }
    var m := MetricsOf(t, Least(LeadDistances(p, ego, seen, actors)), red, lane, ego, c);
    var n := MetricsOf(u, Least(LeadDistances(p, ego, more, actors)), redBefore, lane, ego, c);
    hide Round6;
    hide CollisionTimes;
    hide LeadDistances;
    hide Least;
    LessRiskLessUrgency(m, n, c);
    hide NoMoreUrgent;
    hide Decide;
    hide Alerts;
  }

  // ---------- frames of reference ----------

  /** A rotation by a unit vector (u, v) followed by a translation by (tx, ty). */
  datatype Motion = Motion(u: real, v: real, tx: real, ty: real)
  {
    predicate Rigid() { u * u + v * v == 1.0 }

    function TurnX(x: real, y: real): real { u * x - v * y }

    function TurnY(x: real, y: real): real { v * x + u * y }

    function Place(p: Vec): Vec { Vec(TurnX(p.x, p.y) + tx, TurnY(p.x, p.y) + ty, p.z) }
  }

  function MovedActor(m: Motion, a: Actor): Actor {
    var v := a.velocity;
    a.(position := m.Place(a.position), velocity := Vec(m.TurnX(v.x, v.y), m.TurnY(v.x, v.y), v.z))
  }

  function MovedActors(m: Motion, actors: seq<Actor>): seq<Actor> {
    seq(|actors|, i requires 0 <= i < |actors| => MovedActor(m, actors[i]))
  }

  function MovedPose(m: Motion, p: Pose): Pose {
    Pose(m.TurnX(p.cosine, p.sine), m.TurnY(p.cosine, p.sine), p.lane)
  }

  lemma UnitTimes(m: Motion, a: real)
    requires m.Rigid()
    ensures m.u * m.u * a + m.v * m.v * a == a
  {
    assert (m.u * m.u + m.v * m.v) * a == m.u * m.u * a + m.v * m.v * a;
  }

  /** Rotation keeps inner products. */
  lemma InnerProductKept(m: Motion, x: real, y: real, c: real, s: real)
    requires m.Rigid()
    ensures m.TurnX(x, y) * m.TurnX(c, s) + m.TurnY(x, y) * m.TurnY(c, s) == x * c + y * s
  {
    UnitTimes(m, x * c);
    UnitTimes(m, y * s);
  }

  /** Rotation keeps cross products. */
  lemma CrossProductKept(m: Motion, x: real, y: real, c: real, s: real)
    requires m.Rigid()
    ensures m.TurnY(x, y) * m.TurnX(c, s) - m.TurnX(x, y) * m.TurnY(c, s) == y * c - x * s
  {
    UnitTimes(m, y * c);
    UnitTimes(m, x * s);
  }

  lemma TurnLinear(m: Motion, x: real, y: real, x0: real, y0: real)
    ensures m.TurnX(x, y) - m.TurnX(x0, y0) == m.TurnX(x - x0, y - y0)
    ensures m.TurnY(x, y) - m.TurnY(x0, y0) == m.TurnY(x - x0, y - y0)
  {}

  lemma DistancesKept(m: Motion, p: Pose, ego: Actor, a: Actor)
    requires m.Rigid()
    ensures Longitudinal(MovedPose(m, p), MovedActor(m, ego), MovedActor(m, a)) == Longitudinal(p, ego, a)
    ensures Lateral(MovedPose(m, p), MovedActor(m, ego), MovedActor(m, a)) == Lateral(p, ego, a)
  {
    var dx, dy := a.position.x - ego.position.x, a.position.y - ego.position.y;
    TurnLinear(m, a.position.x, a.position.y, ego.position.x, ego.position.y);
    InnerProductKept(m, dx, dy, p.cosine, p.sine);
    CrossProductKept(m, dx, dy, p.cosine, p.sine);
    hide Motion.TurnX;
    hide Motion.TurnY;
  }

  lemma SpeedKept(m: Motion, p: Pose, a: Actor)
    requires m.Rigid()
    ensures ForwardSpeed(MovedPose(m, p), MovedActor(m, a)) == ForwardSpeed(p, a)
  {
    InnerProductKept(m, a.velocity.x, a.velocity.y, p.cosine, p.sine);
    hide Motion.TurnX;
    hide Motion.TurnY;
  }

  lemma JudgedAlike(m: Motion, p: Pose, ego: Actor, a: Actor)
    requires m.Rigid()
    ensures var q, e, b := MovedPose(m, p), MovedActor(m, ego), MovedActor(m, a);
            && b.identifier == a.identifier
            && (Leading(q, e, b) <==> Leading(p, ego, a)) && Longitudinal(q, e, b) == Longitudinal(p, ego, a)
            && (Closing(q, e, b) <==> Closing(p, ego, a))
            && (Closing(p, ego, a) ==> TimeToCollision(q, e, b) == TimeToCollision(p, ego, a))
  {
    DistancesKept(m, p, ego, a);
    SpeedKept(m, p, a);
    SpeedKept(m, p, ego);
    hide Longitudinal;
    hide Lateral;
    hide ForwardSpeed;
    hide MovedPose;
    hide Motion.TurnX;
    hide Motion.TurnY;
  }

  lemma {:induction false} ValuesKept(m: Motion, p: Pose, ego: Actor, seen: set<string>, actors: seq<Actor>)
    requires m.Rigid()
    ensures CollisionTimes(MovedPose(m, p), MovedActor(m, ego), seen, MovedActors(m, actors)) ==
        CollisionTimes(p, ego, seen, actors)
    ensures LeadDistances(MovedPose(m, p), MovedActor(m, ego), seen, MovedActors(m, actors)) ==
        LeadDistances(p, ego, seen, actors)
  {
    hide Closing;
    hide Leading;
    hide TimeToCollision;
    hide Longitudinal;
    hide MovedPose;
    hide MovedActor;
    hide Motion.Rigid;
    if actors != [] {
      var rest := actors[..|actors| - 1];
      ValuesKept(m, p, ego, seen, rest);
      JudgedAlike(m, p, ego, actors[|actors| - 1]);
      assert MovedActors(m, actors)[..|actors| - 1] == MovedActors(m, rest);
    }
  }

  lemma {:induction false} EgoKept(m: Motion, actors: seq<Actor>)
    ensures FindEgo(MovedActors(m, actors)) ==
            if FindEgo(actors).Some? then Some(MovedActor(m, FindEgo(actors).value)) else None
    ensures FindEgo(actors).Some? ==> MovedActor(m, FindEgo(actors).value).width == FindEgo(actors).value.width
  {
    hide Motion.TurnX;
    hide Motion.TurnY;
    if actors != [] {
      EgoKept(m, actors[1..]);
      assert MovedActors(m, actors)[1..] == MovedActors(m, actors[1..]);
    }
  }

  /**
   * The plan does not depend on where the scene lies or which way it faces, as long as the actors are in range
   * there: only relative positions, speeds and heading matter.
   */
  lemma FrameIrrelevant(m: Motion, p: Pose, actors: seq<Actor>, predictions: seq<Prediction>, c: PlanCommand)
    requires m.Rigid()
    ensures AllLoad(actors) && AllLoad(MovedActors(m, actors)) ==>
            Evaluate(MovedPose(m, p), MovedActors(m, actors), predictions, c) == Evaluate(p, actors, predictions, c)
  {
    hide AllLoad;
    hide MovedActor;
    hide MovedActors;
    hide CollisionTimes;
    hide LeadDistances;
    hide Least;
    hide FindEgo;
    hide Decide;
    hide Alerts;
    hide Round6;
    hide SeesRed;
    hide Perceived;
    hide Motion.Rigid;
    hide Motion.TurnX;
    hide Motion.TurnY;
    EgoKept(m, actors);
    if FindEgo(actors).Some? {
      ValuesKept(m, p, FindEgo(actors).value, Perceived(predictions), actors);
    }
  }

  // ---------- injected faults ----------

  /** Drops a prediction, or replaces its classification. */
  datatype Fault = Drop(prediction: string) | Misclassify(prediction: string, replacement: string)

  function FaultMap(faults: seq<Fault>): map<string, Fault> {
    if faults == [] then map[] else
      var last := faults[|faults| - 1];
      FaultMap(faults[..|faults| - 1])[last.prediction := last]
  }

  function Faulted(q: Prediction, faults: map<string, Fault>): seq<Prediction> {
    if q.identifier !in faults then [q]
    else if faults[q.identifier].Misclassify? then [q.(classification := faults[q.identifier].replacement)]
    else []
  }

  function FaultedUpTo(predictions: seq<Prediction>, faults: map<string, Fault>, k: nat): seq<Prediction>
    requires k <= |predictions|
  {
    if k == 0 then [] else FaultedUpTo(predictions, faults, k - 1) + Faulted(predictions[k - 1], faults)
  }

  function UnknownPredictions(predictions: seq<Prediction>, faults: seq<Fault>): set<string> {
    (set f | f in faults :: f.prediction) - (set q | q in predictions :: q.identifier)
  }

  /** The predictions after the faults, or the ids of faults that name no prediction. */
  function Inject(predictions: seq<Prediction>, faults: seq<Fault>): Result<seq<Prediction>, set<string>> {
    var unknown := UnknownPredictions(predictions, faults);
    if unknown != {} then Err(unknown) else Ok(FaultedUpTo(predictions, FaultMap(faults), |predictions|))
  }

  method InjectFaults(predictions: seq<Prediction>, faults: seq<Fault>)
    returns (r: Result<seq<Prediction>, set<string>>)
    ensures r == Inject(predictions, faults)
  {
    var unknown := UnknownPredictions(predictions, faults);
    if unknown != {} {
      return Err(unknown);
    }
    var byId := FaultMap(faults);
    var output: seq<Prediction> := [];
    for k := 0 to |predictions|
      invariant output == FaultedUpTo(predictions, byId, k)
    {
      var prediction := predictions[k];
      if prediction.identifier !in byId {
        output := output + [prediction];
      } else if byId[prediction.identifier].Misclassify? {
        output := output + [prediction.(classification := byId[prediction.identifier].replacement)];
      } else {
        assert output + [] == output;
      }
    }
    return Ok(output);
  }

  lemma {:induction false} FaultMapEntries(faults: seq<Fault>)
    ensures forall id :: id in FaultMap(faults) ==>
              FaultMap(faults)[id] in faults && FaultMap(faults)[id].prediction == id
  {
    if faults != [] {
      FaultMapEntries(faults[..|faults| - 1]);
    }
  }

  /** Every prediction that is left is one of the original ones, up to its classification. */
  lemma {:induction false} FaultedFrom(predictions: seq<Prediction>, faults: map<string, Fault>, k: nat, q: Prediction)
    requires k <= |predictions| && q in FaultedUpTo(predictions, faults, k)
    ensures exists i :: 0 <= i < k && q in Faulted(predictions[i], faults)
  {
    hide Faulted;
    if q in FaultedUpTo(predictions, faults, k - 1) {
      FaultedFrom(predictions, faults, k - 1, q);
    } else {
      assert q in Faulted(predictions[k - 1], faults);
    }
  }

  lemma {:induction false} FaultedTo(predictions: seq<Prediction>, faults: map<string, Fault>, k: nat, i: nat,
                                     q: Prediction)
    requires i < k <= |predictions| && q in Faulted(predictions[i], faults)
    ensures q in FaultedUpTo(predictions, faults, k)
    decreases k
  {
    hide Faulted;
    if i < k - 1 {
      FaultedTo(predictions, faults, k - 1, i, q);
    }
  }

  lemma FaultsNeverReveal(predictions: seq<Prediction>, faults: map<string, Fault>)
    ensures Perceived(FaultedUpTo(predictions, faults, |predictions|)) <= Perceived(predictions)
  {
    var output := FaultedUpTo(predictions, faults, |predictions|);
    forall q | q in output && (q.target.ObjectTarget? || q.target.PedestrianTarget?)
      ensures q.groundTruthId in Perceived(predictions) {
      FaultedFrom(predictions, faults, |predictions|, q);
      var i :| 0 <= i < |predictions| && q in Faulted(predictions[i], faults);
      assert predictions[i] in predictions && predictions[i].groundTruthId == q.groundTruthId;
    }
  }

  ghost predicate DropOnly(faults: seq<Fault>) {
    forall i :: 0 <= i < |faults| ==> faults[i].Drop?
  }

  ghost predicate MisclassifyOnly(faults: seq<Fault>) {
    forall i :: 0 <= i < |faults| ==> faults[i].Misclassify?
  }

  lemma DroppingInventsNothing(predictions: seq<Prediction>, faults: seq<Fault>)
    requires DropOnly(faults)
    ensures SeesRed(FaultedUpTo(predictions, FaultMap(faults), |predictions|)) ==> SeesRed(predictions)
  {
    var output := FaultedUpTo(predictions, FaultMap(faults), |predictions|);
    FaultMapEntries(faults);
    if q :| q in output && q.target.SignalTarget? && q.classification == "red" {
      FaultedFrom(predictions, FaultMap(faults), |predictions|, q);
      var i :| 0 <= i < |predictions| && q in Faulted(predictions[i], FaultMap(faults));
      assert q == predictions[i];
    }
  }

  /** The prediction shows a red signal once its fault, if it has one, is injected. */
  predicate RedAfter(q: Prediction, faults: map<string, Fault>) {
    q.target.SignalTarget? &&
    if q.identifier in faults
    then faults[q.identifier].Misclassify? && faults[q.identifier].replacement == "red"
    else q.classification == "red"
  }

  /**
   * After the faults a red signal is seen exactly when some signal is misclassified to red, or is red and left
   * alone.
   */
  lemma SeesRedExactly(predictions: seq<Prediction>, faults: seq<Fault>)
    ensures SeesRed(FaultedUpTo(predictions, FaultMap(faults), |predictions|)) <==>
            exists q :: q in predictions && RedAfter(q, FaultMap(faults))
  {
    var output, byId := FaultedUpTo(predictions, FaultMap(faults), |predictions|), FaultMap(faults);
    if q :| q in output && q.target.SignalTarget? && q.classification == "red" {
      FaultedFrom(predictions, byId, |predictions|, q);
      var i :| 0 <= i < |predictions| && q in Faulted(predictions[i], byId);
      assert RedAfter(predictions[i], byId);
    }
    if q :| q in predictions && RedAfter(q, byId) {
      var i :| 0 <= i < |predictions| && predictions[i] == q;
      var changed := Faulted(q, byId)[0];
      FaultedTo(predictions, byId, |predictions|, i, changed);
      assert changed.target.SignalTarget? && changed.classification == "red";
    }
  }

  /** With at most one fault per prediction, as the schema demands, a prediction's fault is the one that names it. */
  lemma {:induction false} FaultMapExact(faults: seq<Fault>, f: Fault)
    requires forall i, j :: 0 <= i < j < |faults| ==> faults[i].prediction != faults[j].prediction
    ensures f in faults <==> f.prediction in FaultMap(faults) && FaultMap(faults)[f.prediction] == f
  {
    if faults != [] {
      var last := |faults| - 1;
      FaultMapExact(faults[..last], f);
      FaultMapEntries(faults[..last]);
      assert faults == faults[..last] + [faults[last]];
    }
  }

  /**
   * Injected faults can only make the planner see less: whatever the faults, the plan under them raises no
   * other alert, raises none more severely and reacts no more urgently, unless they turn some signal red.
   */
  lemma FaultsNeverAlarm(p: Pose, actors: seq<Actor>, predictions: seq<Prediction>, faults: seq<Fault>, c: PlanCommand)
    requires c.Valid() && Inject(predictions, faults).Ok?
    ensures var faulted := Inject(predictions, faults).value;
            var before, after := Evaluate(p, actors, predictions, c), Evaluate(p, actors, faulted, c);
            && (after.Err? <==> before.Err?)
            && (before.Ok? ==>
                  (NoMoreUrgent(after.value, before.value) <==>
                     ((exists q :: q in predictions && RedAfter(q, FaultMap(faults))) ==> SeesRed(predictions))))
            && (before.Ok? && DropOnly(faults) ==> NoMoreUrgent(after.value, before.value))
  {
    hide PlanFor;
    hide NoMoreUrgent;
    hide SeesRed;
    hide Perceived;
    hide DropOnly;
    hide AllLoad;
    var faulted := Inject(predictions, faults).value;
    FaultsNeverReveal(predictions, FaultMap(faults));
    SeesRedExactly(predictions, faults);
    hide RedAfter;
    if DropOnly(faults) {
      DroppingInventsNothing(predictions, faults);
    }
    if FindEgo(actors).Some? && p.lane.Some? {
      SeeingLess(p, FindEgo(actors).value, p.lane.value, actors, Perceived(faulted), Perceived(predictions),
                 SeesRed(faulted), SeesRed(predictions), c);
    }
  }

  lemma MisclassifyingHidesNothing(predictions: seq<Prediction>, faults: seq<Fault>)
    requires MisclassifyOnly(faults)
    ensures Perceived(FaultedUpTo(predictions, FaultMap(faults), |predictions|)) == Perceived(predictions)
  {
    var output, byId := FaultedUpTo(predictions, FaultMap(faults), |predictions|), FaultMap(faults);
    FaultsNeverReveal(predictions, byId);
    FaultMapEntries(faults);
    forall q | q in predictions && (q.target.ObjectTarget? || q.target.PedestrianTarget?)
      ensures q.groundTruthId in Perceived(output) {
      var i :| 0 <= i < |predictions| && predictions[i] == q;
      var changed := Faulted(q, byId)[0];
      FaultedTo(predictions, byId, |predictions|, i, changed);
      assert changed.groundTruthId == q.groundTruthId && changed.target == q.target;
    }
  }

  /** Misclassification alone changes at most the red-signal metric. */
  lemma MisclassifyingOnlyTurnsSignals(p: Pose, actors: seq<Actor>, predictions: seq<Prediction>, faults: seq<Fault>,
                                       c: PlanCommand)
    requires MisclassifyOnly(faults) && Inject(predictions, faults).Ok?
    requires Evaluate(p, actors, predictions, c).Ok?
    ensures var faulted := Inject(predictions, faults).value;
            && Evaluate(p, actors, faulted, c).Ok?
            && Evaluate(p, actors, faulted, c).value.metrics ==
               Evaluate(p, actors, predictions, c).value.metrics.(redSignal := SeesRed(faulted))
  {
    MisclassifyingHidesNothing(predictions, faults);
    hide SeesRed;
    hide Perceived;
    hide Least;
    hide AllLoad;
  }
}

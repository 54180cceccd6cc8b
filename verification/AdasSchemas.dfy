/** Value types the ADAS modules share: vectors, scene actors and perception targets, with their schema constraints. */
module AdasSchemas {
  import opened Basics

  datatype Vec = Vec(x: real, y: real, z: real)
  {
    /** The range the schema checks whenever a vector is built or loaded, but not when one coordinate is assigned. */
    predicate InRange() {
      -1000000.0 <= x <= 1000000.0 && -1000000.0 <= y <= 1000000.0 && -10000.0 <= z <= 10000.0
    }
  }

  datatype ActorType = EgoVehicle | Vehicle | Pedestrian | Cyclist | StaticObstacle
  {
    function Name(): string {
      match this
      case EgoVehicle => "ego_vehicle"
      case Vehicle => "vehicle"
      case Pedestrian => "pedestrian"
      case Cyclist => "cyclist"
      case StaticObstacle => "static_obstacle"
    }
  }

  datatype Waypoint = Waypoint(time: nat, position: Vec, velocity: Option<Vec>)
  {
    predicate Valid() {
      position.InRange() && (velocity.Some? ==> velocity.value.InRange())
    }
  }

  datatype Actor = Actor(
    identifier: string,
    kind: ActorType,
    position: Vec,
    velocity: Vec,
    width: real,
    trajectory: seq<Waypoint>)
  {
    /** A trajectory starts at time zero, its times strictly increase, and its vectors are in range. */
    predicate Valid() {
      && (trajectory != [] ==> trajectory[0].time == 0)
      && (forall i, j :: 0 <= i < j < |trajectory| ==> trajectory[i].time < trajectory[j].time)
      && (forall i :: 0 <= i < |trajectory| ==> trajectory[i].Valid())
    }

    /** A stored actor passes validation when it is loaded. */
    predicate Loads() {
      Valid() && position.InRange() && velocity.InRange()
    }
  }

  predicate AllLoad(actors: seq<Actor>) {
    forall i :: 0 <= i < |actors| ==> actors[i].Loads()
  }

  /** What a prediction, or an element of the ground truth, is about. */
  datatype Target = ObjectTarget | PedestrianTarget | LaneTarget | SignTarget | SignalTarget
}

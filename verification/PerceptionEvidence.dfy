/** What the ground truth of a scene holds and what perception scores mean. */
module PerceptionEvidence {
  import opened AdasSchemas
  import opened Basics
  import opened Rounding
  import opened Perception

  // ---------- ground truth ----------

  /** What is there to be seen: visible actors, every lane, and every light and sign with what it shows. */
  ghost predicate ToBeSeen(actors: seq<Actor>, visible: set<string>, roads: seq<seq<string>>, controls: seq<Control>,
                           key: Key) {
    match key.target
    case PedestrianTarget =>
      exists a :: a in actors && a.identifier in visible && a.kind == Pedestrian
        && key.identifier == a.identifier && key.classification == "pedestrian"
    case ObjectTarget =>
      exists a :: a in actors && a.identifier in visible && a.kind != Pedestrian
        && key.identifier == a.identifier && key.classification == a.kind.Name()
    case LaneTarget => key.classification == "lane" && exists road :: road in roads && key.identifier in road
    case SignalTarget =>
      exists state :: TrafficLight(key.identifier, state) in controls && Shows(state, key.classification)
    case SignTarget => TrafficSign(key.identifier, key.classification) in controls
  }

  /** A light without a state is off. */
  predicate Shows(state: Option<string>, classification: string) {
    match state
    case None => classification == "off"
    case Some(shown) => classification == shown
  }

  lemma ActorSeen(actors: seq<Actor>, visible: set<string>, key: Key)
    ensures (exists a :: a in actors && a.identifier in visible && ActorKey(a) == key) <==>
            || (key.target == PedestrianTarget
                && exists a :: a in actors && a.identifier in visible && a.kind == Pedestrian
                     && key.identifier == a.identifier && key.classification == "pedestrian")
            || (key.target == ObjectTarget
                && exists a :: a in actors && a.identifier in visible && a.kind != Pedestrian
                     && key.identifier == a.identifier && key.classification == a.kind.Name())
  {}

  lemma LaneSeen(roads: seq<seq<string>>, key: Key)
    ensures (exists i, j :: 0 <= i < |roads| && 0 <= j < |roads[i]| && Key(LaneTarget, roads[i][j], "lane") == key) <==>
            key.target == LaneTarget && key.classification == "lane"
            && exists road :: road in roads && key.identifier in road
  {
    if road :| road in roads && key.identifier in road {
      var i :| 0 <= i < |roads| && roads[i] == road;
      var j :| 0 <= j < |road| && road[j] == key.identifier;
      assert roads[i][j] == key.identifier;
    }
    if i, j :| 0 <= i < |roads| && 0 <= j < |roads[i]| && Key(LaneTarget, roads[i][j], "lane") == key {
      assert roads[i] in roads && key.identifier in roads[i];
    }
  }

  lemma ControlSeen(controls: seq<Control>, key: Key)
    ensures (exists c :: c in controls && ControlKey(c) == key) <==>
            || (key.target == SignalTarget
                && exists state :: TrafficLight(key.identifier, state) in controls && Shows(state, key.classification))
            || (key.target == SignTarget && TrafficSign(key.identifier, key.classification) in controls)
  {
    if state :| TrafficLight(key.identifier, state) in controls && Shows(state, key.classification) {
      var c := TrafficLight(key.identifier, state);
      assert key.target == SignalTarget ==> ControlKey(c) == key;
    }
    if TrafficSign(key.identifier, key.classification) in controls && key.target == SignTarget {
      assert ControlKey(TrafficSign(key.identifier, key.classification)) == key;
    }
  }

  /** The ground truth is exactly what there is to be seen. */
  lemma TruthExactly(actors: seq<Actor>, visible: set<string>, roads: seq<seq<string>>, controls: seq<Control>,
                     key: Key)
    ensures key in GroundTruth(actors, visible, roads, controls) <==>
            ToBeSeen(actors, visible, roads, controls, key)
  {
    hide ActorKey;
    hide ControlKey;
    hide Shows;
    ActorSeen(actors, visible, key);
    LaneSeen(roads, key);
    ControlSeen(controls, key);
  }

  // ---------- scores ----------

  /** y is the share part / whole to six decimals; of nothing, 1 if there is nothing else either and 0 otherwise. */
  ghost predicate Share(y: real, part: nat, whole: nat, other: nat) {
    if whole > 0 then exists x :: x * whole as real == part as real && SixDecimals(y, x)
    else y == (if other == 0 then 1.0 else 0.0)
  }

  lemma RatioShare(part: nat, whole: nat, other: nat)
    ensures Share(Round6(Ratio(part, whole, other)), part, whole, other)
  {
    hide SixDecimals;
    var x := Ratio(part, whole, other);
    Round6Exactly(x, Round6(x));
    assert Round6(0.0) == 0.0 && Round6(1.0) == 1.0;
    if whole > 0 {
      assert x * whole as real == part as real;
    }
    hide Round6;
  }

  /**
   * Precision is the share of the predictions that are true, recall the share of the truth that is predicted, and F1
   * the share of true positives in true positives and half of the errors, all to six decimals.
   */
  lemma ScoreExactly(c: Counts)
    ensures var s := ScoreOf(c);
            && s.counts == c
            && Share(s.precision, c.truePositive, c.truePositive + c.falsePositive, c.truePositive + c.falseNegative)
            && Share(s.recall, c.truePositive, c.truePositive + c.falseNegative, c.truePositive + c.falsePositive)
            && Share(s.f1, 2 * c.truePositive, 2 * c.truePositive + c.falsePositive + c.falseNegative, 0)
  {
    hide Share;
    hide Harmonic;
    hide Round6;
    RatioShare(c.truePositive, c.truePositive + c.falsePositive, c.truePositive + c.falseNegative);
    RatioShare(c.truePositive, c.truePositive + c.falseNegative, c.truePositive + c.falsePositive);
    F1ClosedForm(c);
    RatioShare(2 * c.truePositive, 2 * c.truePositive + c.falsePositive + c.falseNegative, 0);
  }

  /** The scores of a set of predictions, overall and by target, are those of its true and false predictions. */
  ghost predicate Scores(predictions: seq<Key>, truth: set<Key>, s: Score) {
    var right, claimed, there := |Keys(predictions) * truth|, |predictions|, |truth|;
    && right <= claimed && right <= there
    && s.counts == Counts(right, claimed - right, there - right)
    && Share(s.precision, right, claimed, there) && Share(s.recall, right, there, claimed)
    && Share(s.f1, 2 * right, claimed + there, 0)
  }

  /** What is reported overall; ScorePredictions establishes the conditions for its result. */
  lemma ReportedScores(predictions: seq<Key>, truth: set<Key>, overall: Score)
    requires overall == ScoreOf(overall.counts)
    requires overall.counts.truePositive == |Keys(predictions) * truth|
    requires overall.counts.truePositive + overall.counts.falsePositive == |predictions|
    requires overall.counts.truePositive + overall.counts.falseNegative == |truth|
    ensures Scores(predictions, truth, overall)
  {
    ScoreExactly(overall.counts);
    hide Share;
    hide ScoreOf;
  }
}

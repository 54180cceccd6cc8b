/** One-to-one matching of perception predictions against a scene's ground truth. */
module Perception {
  import opened AdasSchemas
  import opened Basics
  import opened Rounding

  function AllTargets(): seq<Target> {
    [ObjectTarget, PedestrianTarget, LaneTarget, SignTarget, SignalTarget]
  }

  /** What a prediction claims, and what an element of the ground truth is. */
  datatype Key = Key(target: Target, identifier: string, classification: string)

  // ---------- ground truth ----------

  datatype Control =
    | TrafficLight(identifier: string, state: Option<string>)
    | TrafficSign(identifier: string, kind: string)

  function ActorKey(a: Actor): Key {
    Key(if a.kind.Pedestrian? then PedestrianTarget else ObjectTarget, a.identifier, a.kind.Name())
  }

  function ControlKey(c: Control): Key {
    match c
    case TrafficLight(id, state) => Key(SignalTarget, id, if state.Some? then state.value else "off")
    case TrafficSign(id, kind) => Key(SignTarget, id, kind)
  }

  /** The visible actors, every lane of every road, and every traffic control. */
  function GroundTruth(actors: seq<Actor>, visible: set<string>, roads: seq<seq<string>>,
                       controls: seq<Control>): set<Key> {
    (set a | a in actors && a.identifier in visible :: ActorKey(a)) +
    (set i, j | 0 <= i < |roads| && 0 <= j < |roads[i]| :: Key(LaneTarget, roads[i][j], "lane")) +
    (set c | c in controls :: ControlKey(c))
  }

  /** None when some actor of the scene fails validation on loading. */
  method BuildGroundTruth(actors: seq<Actor>, visible: set<string>, roads: seq<seq<string>>, controls: seq<Control>)
    returns (r: Option<set<Key>>)
    ensures r == if AllLoad(actors) then Some(GroundTruth(actors, visible, roads, controls)) else None
  {
    var truth: set<Key> := {};
    for k := 0 to |actors|
      invariant truth == set a | a in actors[..k] && a.identifier in visible :: ActorKey(a)
      invariant forall i :: 0 <= i < k ==> actors[i].Loads()
    {
      if !actors[k].Loads() {
        return None;
      }
      assert actors[..k + 1] == actors[..k] + [actors[k]];
      if actors[k].identifier in visible {
        truth := truth + {ActorKey(actors[k])};
      }
    }
    assert actors[..|actors|] == actors;
    truth := AddLanes(truth, roads);
    ghost var withLanes := truth;
    for k := 0 to |controls|
      invariant truth == withLanes + set c | c in controls[..k] :: ControlKey(c)
    {
      assert controls[..k + 1] == controls[..k] + [controls[k]];
      truth := truth + {ControlKey(controls[k])};
    }
    assert controls[..|controls|] == controls;
    return Some(truth);
  }

  method AddLanes(start: set<Key>, roads: seq<seq<string>>) returns (truth: set<Key>)
    ensures truth == start + set i, j | 0 <= i < |roads| && 0 <= j < |roads[i]| :: Key(LaneTarget, roads[i][j], "lane")
  {
    truth := start;
    for i := 0 to |roads|
      invariant truth == start + set p, j | 0 <= p < i && 0 <= j < |roads[p]| :: Key(LaneTarget, roads[p][j], "lane")
    {
      ghost var before := truth;
      for j := 0 to |roads[i]|
        invariant truth == before + set q | 0 <= q < j :: Key(LaneTarget, roads[i][q], "lane")
      {
        truth := truth + {Key(LaneTarget, roads[i][j], "lane")};
      }
    }
  }

  // ---------- counting ----------

  datatype Counts = Counts(truePositive: nat, falsePositive: nat, falseNegative: nat)

  function Keys(predictions: seq<Key>): set<Key> {
    set k | k in predictions
  }

  function Of(keys: set<Key>, t: Target): set<Key> {
    set k | k in keys && k.target == t
  }

  /** How many predictions are for the target type. */
  function Predicted(predictions: seq<Key>, t: Target): nat {
    if predictions == [] then 0 else
      Predicted(predictions[..|predictions| - 1], t) + (if predictions[|predictions| - 1].target == t then 1 else 0)
  }

  /**
   * The matching by sets: a true positive for every distinct prediction that is in the ground truth, a false
   * positive for every other prediction, a false negative for every truth that no prediction names.
   */
  ghost predicate Exact(predictions: seq<Key>, truth: set<Key>, t: Target, c: Counts) {
    && c.truePositive == |Of(Keys(predictions) * truth, t)|
    && c.truePositive + c.falsePositive == Predicted(predictions, t)
    && c.truePositive + c.falseNegative == |Of(truth, t)|
  }

  lemma OfUnion(a: set<Key>, k: Key, t: Target)
    requires k !in a
    ensures |Of(a + {k}, t)| == |Of(a, t)| + (if k.target == t then 1 else 0)
  {
    if k.target == t {
      assert Of(a + {k}, t) == Of(a, t) + {k};
    } else {
      assert Of(a + {k}, t) == Of(a, t);
    }
  }

  lemma OfSplit(truth: set<Key>, matched: set<Key>, t: Target)
    requires matched <= truth
    ensures |Of(matched, t)| + |Of(truth - matched, t)| == |Of(truth, t)|
  {
    assert Of(matched, t) + Of(truth - matched, t) == Of(truth, t);
    assert Of(matched, t) * Of(truth - matched, t) == {};
  }

  lemma KeysExtend(predictions: seq<Key>, k: nat, truth: set<Key>)
    requires k < |predictions|
    ensures Keys(predictions[..k + 1]) * truth ==
            Keys(predictions[..k]) * truth + (if predictions[k] in truth then {predictions[k]} else {})
  {
    assert predictions[..k + 1] == predictions[..k] + [predictions[k]];
  }

  /** The counts after the first k predictions: every one of them is matched or a false positive so far. */
  ghost predicate CountedSoFar(predictions: seq<Key>, truth: set<Key>, k: nat, matched: set<Key>,
                               counts: map<Target, Counts>)
    requires k <= |predictions|
  {
    && matched == Keys(predictions[..k]) * truth
    && forall t: Target :: t in counts && SoFar(predictions[..k], matched, t, counts[t])
  }

  ghost predicate SoFar(predictions: seq<Key>, matched: set<Key>, t: Target, c: Counts) {
    && c.truePositive == |Of(matched, t)|
    && c.truePositive + c.falsePositive == Predicted(predictions, t)
    && c.falseNegative == 0
  }

  lemma CountMatch(predictions: seq<Key>, truth: set<Key>, k: nat, matched: set<Key>, counts: map<Target, Counts>)
    requires k < |predictions| && CountedSoFar(predictions, truth, k, matched, counts)
    requires predictions[k] in truth && predictions[k] !in matched
    ensures var t := predictions[k].target;
            CountedSoFar(predictions, truth, k + 1, matched + {predictions[k]},
                         counts[t := counts[t].(truePositive := counts[t].truePositive + 1)])
  {
    KeysExtend(predictions, k, truth);
    forall t: Target
      ensures |Of(matched + {predictions[k]}, t)| ==
              |Of(matched, t)| + (if predictions[k].target == t then 1 else 0) {
      OfUnion(matched, predictions[k], t);
    }
    forall t: Target
      ensures Predicted(predictions[..k + 1], t) ==
              Predicted(predictions[..k], t) + (if predictions[k].target == t then 1 else 0) {
      assert predictions[..k + 1][..k] == predictions[..k];
    }
    hide Predicted;
    hide Of;
    hide Keys;
  }

  lemma CountMiss(predictions: seq<Key>, truth: set<Key>, k: nat, matched: set<Key>, counts: map<Target, Counts>)
    requires k < |predictions| && CountedSoFar(predictions, truth, k, matched, counts)
    requires !(predictions[k] in truth && predictions[k] !in matched)
    ensures var t := predictions[k].target;
            CountedSoFar(predictions, truth, k + 1, matched,
                         counts[t := counts[t].(falsePositive := counts[t].falsePositive + 1)])
  {
    KeysExtend(predictions, k, truth);
    forall t: Target
      ensures Predicted(predictions[..k + 1], t) ==
              Predicted(predictions[..k], t) + (if predictions[k].target == t then 1 else 0) {
      assert predictions[..k + 1][..k] == predictions[..k];
    }
    hide Predicted;
    hide Of;
    hide Keys;
  }

  method MatchPredictions(predictions: seq<Key>, truth: set<Key>)
    returns (matched: set<Key>, counts: map<Target, Counts>)
    ensures CountedSoFar(predictions, truth, |predictions|, matched, counts)
  {
    hide SoFar;
    matched := {};
    counts := map t: Target | t in AllTargets() :: Counts(0, 0, 0);
    NothingCounted(predictions, truth, counts);
    for k := 0 to |predictions|
      invariant CountedSoFar(predictions, truth, k, matched, counts)
    {
      var key := predictions[k];
      var c := counts[key.target];
      if key in truth && key !in matched {
        CountMatch(predictions, truth, k, matched, counts);
        matched := matched + {key};
        counts := counts[key.target := c.(truePositive := c.truePositive + 1)];
      } else {
        CountMiss(predictions, truth, k, matched, counts);
        counts := counts[key.target := c.(falsePositive := c.falsePositive + 1)];
      }
    }
  }

  lemma NothingCounted(predictions: seq<Key>, truth: set<Key>, counts: map<Target, Counts>)
    requires counts == map t: Target | t in AllTargets() :: Counts(0, 0, 0)
    ensures CountedSoFar(predictions, truth, 0, {}, counts)
  {
    assert predictions[..0] == [];
    forall t: Target ensures t in counts && SoFar([], {}, t, counts[t]) {
      assert t == ObjectTarget || t == PedestrianTarget || t == LaneTarget || t == SignTarget || t == SignalTarget;
      assert AllTargets()[0] == ObjectTarget && AllTargets()[1] == PedestrianTarget && AllTargets()[2] == LaneTarget
             && AllTargets()[3] == SignTarget && AllTargets()[4] == SignalTarget;
      assert Of({}, t) == {};
    }
  }

  /** Counts every truth that was not matched as a false negative of its target type. */
  method CountMissed(missed: set<Key>, matchedCounts: map<Target, Counts>) returns (counts: map<Target, Counts>)
    requires forall t: Target :: t in matchedCounts && matchedCounts[t].falseNegative == 0
    ensures forall t: Target :: t in counts && counts[t] == matchedCounts[t].(falseNegative := |Of(missed, t)|)
  {
    counts := matchedCounts;
    var rest := missed;
    ghost var seen: set<Key> := {};
    assert forall t: Target :: Of(seen, t) == {};
    while rest != {}
      invariant seen + rest == missed && seen !! rest
      invariant forall t: Target :: t in counts && counts[t] == matchedCounts[t].(falseNegative := |Of(seen, t)|)
      decreases |rest|
    {
      var key :| key in rest;
      var c := counts[key.target];
      forall t: Target ensures |Of(seen + {key}, t)| == |Of(seen, t)| + (if key.target == t then 1 else 0) {
        OfUnion(seen, key, t);
      }
      counts := counts[key.target := c.(falseNegative := c.falseNegative + 1)];
      rest := rest - {key};
      seen := seen + {key};
    }
    assert seen == missed;
  }

  // ---------- scores ----------

  datatype Score = Score(counts: Counts, precision: real, recall: real, f1: real)

  function Ratio(part: nat, whole: nat, other: nat): real {
    if whole > 0 then part as real / whole as real else if other == 0 then 1.0 else 0.0
  }

  function Precision(c: Counts): real {
    Ratio(c.truePositive, c.truePositive + c.falsePositive, c.truePositive + c.falseNegative)
  }

  function Recall(c: Counts): real {
    Ratio(c.truePositive, c.truePositive + c.falseNegative, c.truePositive + c.falsePositive)
  }

  /** The harmonic mean, 0 when both are 0. */
  function Harmonic(p: real, r: real): real {
    if p + r != 0.0 then 2.0 * p * r / (p + r) else 0.0
  }

  function F1(c: Counts): real {
    Harmonic(Precision(c), Recall(c))
  }

  function ScoreOf(c: Counts): Score {
    Score(c, Round6(Precision(c)), Round6(Recall(c)), Round6(F1(c)))
  }

  lemma HarmonicMean(t: real, a: real, b: real)
    requires t > 0.0 && a > 0.0 && b > 0.0
    ensures Harmonic(t / a, t / b) == 2.0 * t / (a + b)
  {
    var p, r := t / a, t / b;
    assert p * a == t && r * b == t;
    assert p > 0.0 && r > 0.0;
    var s := p + r;
    ProductOfSums(p, r, a, b, t);
    QuotientsEqual(2.0 * p * r, s, 2.0 * t, a + b);
  }

  lemma ProductOfSums(p: real, r: real, a: real, b: real, t: real)
    requires p * a == t && r * b == t
    ensures 2.0 * p * r * (a + b) == 2.0 * t * (p + r)
  {
    calc {
      2.0 * p * r * (a + b);
    ==
      2.0 * (p * a) * r + 2.0 * p * (r * b);
    ==
      2.0 * t * r + 2.0 * p * t;
    }
  }

  lemma QuotientsEqual(m: real, s: real, n: real, d: real)
    requires s > 0.0 && d > 0.0 && m * d == n * s
    ensures m / s == n / d
  {
    var q := n / d;
    assert q * d == n;
    assert m * d == q * d * s;
    assert (m - q * s) * d == 0.0;
    assert m == q * s;
  }

  lemma HarmonicCounts(t: nat, a: nat, b: nat)
    requires 0 < t <= a && t <= b
    ensures Harmonic(t as real / a as real, t as real / b as real) == (2 * t) as real / (a + b) as real
  {
    HarmonicMean(t as real, a as real, b as real);
    assert a as real + b as real == (a + b) as real && 2.0 * t as real == (2 * t) as real;
    hide Harmonic;
  }

  lemma NothingFound(c: Counts)
    requires c.truePositive == 0
    ensures c.falsePositive == c.falseNegative == 0 ==> Precision(c) == 1.0 && Recall(c) == 1.0
    ensures c.falsePositive + c.falseNegative > 0 ==> Precision(c) == 0.0 && Recall(c) == 0.0
  {}

  /** Unrounded, F1 is 2 TP / (2 TP + FP + FN), and 1 when there is nothing to find and nothing was claimed. */
  lemma F1ClosedForm(c: Counts)
    ensures var whole := 2 * c.truePositive + c.falsePositive + c.falseNegative;
            F1(c) == if whole == 0 then 1.0 else (2 * c.truePositive) as real / whole as real
  {
    if c.truePositive > 0 {
      HarmonicCounts(c.truePositive, c.truePositive + c.falsePositive, c.truePositive + c.falseNegative);
      hide Harmonic;
    } else {
      NothingFound(c);
      assert Harmonic(1.0, 1.0) == 1.0 && Harmonic(0.0, 0.0) == 0.0;
      hide Precision;
      hide Recall;
      hide Harmonic;
    }
  }

  lemma QuotientInUnit(part: nat, whole: nat)
    requires part <= whole && whole > 0
    ensures 0.0 <= part as real / whole as real <= 1.0
  {}

  lemma Round6InUnit(x: real)
    requires 0.0 <= x <= 1.0
    ensures 0.0 <= Round6(x) <= 1.0
  {
    assert Round6(0.0) == 0.0 && Round6(1.0) == 1.0;
    Round6Monotone(0.0, x);
    Round6Monotone(x, 1.0);
  }

  /** Precision, recall and F1 are reported within 0 and 1, as the result schema demands. */
  lemma ScoreInUnit(c: Counts)
    ensures var s := ScoreOf(c);
            0.0 <= s.precision <= 1.0 && 0.0 <= s.recall <= 1.0 && 0.0 <= s.f1 <= 1.0
  {
    hide F1;
    hide Round6;
    var t, a, b := c.truePositive, c.truePositive + c.falsePositive, c.truePositive + c.falseNegative;
    if a > 0 {
      QuotientInUnit(t, a);
    }
    if b > 0 {
      QuotientInUnit(t, b);
    }
    F1ClosedForm(c);
    if a + b > 0 {
      QuotientInUnit(2 * t, a + b);
    }
    Round6InUnit(Precision(c));
    Round6InUnit(Recall(c));
    Round6InUnit(F1(c));
  }

  function Overall(counts: map<Target, Counts>): Counts
    requires forall t: Target :: t in counts
  {
    Counts(
      counts[ObjectTarget].truePositive + counts[PedestrianTarget].truePositive + counts[LaneTarget].truePositive
        + counts[SignTarget].truePositive + counts[SignalTarget].truePositive,
      counts[ObjectTarget].falsePositive + counts[PedestrianTarget].falsePositive + counts[LaneTarget].falsePositive
        + counts[SignTarget].falsePositive + counts[SignalTarget].falsePositive,
      counts[ObjectTarget].falseNegative + counts[PedestrianTarget].falseNegative + counts[LaneTarget].falseNegative
        + counts[SignTarget].falseNegative + counts[SignalTarget].falseNegative)
  }

  method ScorePredictions(predictions: seq<Key>, truth: set<Key>) returns (overall: Score, byTarget: map<Target, Score>)
    ensures forall t: Target :: t in byTarget && Exact(predictions, truth, t, byTarget[t].counts)
                                && byTarget[t] == ScoreOf(byTarget[t].counts)
    ensures overall == ScoreOf(overall.counts)
    ensures overall.counts.truePositive == |Keys(predictions) * truth|
    ensures overall.counts.truePositive + overall.counts.falsePositive == |predictions|
    ensures overall.counts.truePositive + overall.counts.falseNegative == |truth|
  {
    hide ScoreOf;
    var matched, counts := MatchPredictions(predictions, truth);
    var missed := truth - matched;
    counts := CountMissed(missed, counts);
    assert predictions[..|predictions|] == predictions;
    forall t: Target ensures Exact(predictions, truth, t, counts[t]) {
      OfSplit(truth, matched, t);
    }
    overall := ScoreOf(Overall(counts));
    byTarget := map t: Target | t in counts :: ScoreOf(counts[t]);
    ScoreKeepsCounts(Overall(counts));
    forall t: Target ensures ScoreOf(counts[t]).counts == counts[t] {
      ScoreKeepsCounts(counts[t]);
    }
    OverallExact(predictions, truth, counts);
  }

  lemma ScoreKeepsCounts(c: Counts)
    ensures ScoreOf(c).counts == c
  {}

  lemma {:induction false} PredictedAddUp(predictions: seq<Key>)
    ensures Predicted(predictions, ObjectTarget) + Predicted(predictions, PedestrianTarget)
            + Predicted(predictions, LaneTarget)
            + Predicted(predictions, SignTarget) + Predicted(predictions, SignalTarget) == |predictions|
  {
    if predictions != [] {
      PredictedAddUp(predictions[..|predictions| - 1]);
    }
  }

  lemma OfAddUp(keys: set<Key>)
    ensures |Of(keys, ObjectTarget)| + |Of(keys, PedestrianTarget)| + |Of(keys, LaneTarget)|
            + |Of(keys, SignTarget)| + |Of(keys, SignalTarget)| == |keys|
  {
    var a := Of(keys, ObjectTarget);
    var b := a + Of(keys, PedestrianTarget);
    var c := b + Of(keys, LaneTarget);
    var d := c + Of(keys, SignTarget);
    assert a * Of(keys, PedestrianTarget) == {} && b * Of(keys, LaneTarget) == {} && c * Of(keys, SignTarget) == {}
           && d * Of(keys, SignalTarget) == {};
    assert d + Of(keys, SignalTarget) == keys;
  }

  lemma OverallExact(predictions: seq<Key>, truth: set<Key>, counts: map<Target, Counts>)
    requires forall t: Target :: t in counts && Exact(predictions, truth, t, counts[t])
    ensures Overall(counts).truePositive == |Keys(predictions) * truth|
    ensures Overall(counts).truePositive + Overall(counts).falsePositive == |predictions|
    ensures Overall(counts).truePositive + Overall(counts).falseNegative == |truth|
  {
    assert Exact(predictions, truth, ObjectTarget, counts[ObjectTarget])
           && Exact(predictions, truth, PedestrianTarget, counts[PedestrianTarget]);
    assert Exact(predictions, truth, LaneTarget, counts[LaneTarget])
           && Exact(predictions, truth, SignTarget, counts[SignTarget]);
    assert Exact(predictions, truth, SignalTarget, counts[SignalTarget]);
    PredictedAddUp(predictions);
    OfAddUp(truth);
    OfAddUp(Keys(predictions) * truth);
    hide Predicted;
    hide Of;
    hide Keys;
  }

  // ---------- order ----------

  lemma {:induction false} PredictedByMultiset(a: seq<Key>, b: seq<Key>, t: Target)
    requires multiset(a) == multiset(b)
    ensures Predicted(a, t) == Predicted(b, t)
  {
    if a == [] {
      assert b == [] by { assert |multiset(b)| == |b|; }
    } else {
      var n := |a| - 1;
      assert a[n] in multiset(b);
      var i :| 0 <= i < |b| && b[i] == a[n];
      Without(a, n, t);
      Without(b, i, t);
      assert a[..n] + a[n + 1..] == a[..n];
      PredictedByMultiset(a[..n], b[..i] + b[i + 1..], t);
    }
  }

  lemma Without(s: seq<Key>, i: nat, t: Target)
    requires i < |s|
    ensures multiset(s[..i] + s[i + 1..]) == multiset(s) - multiset{s[i]}
    ensures Predicted(s, t) == Predicted(s[..i] + s[i + 1..], t) + (if s[i].target == t then 1 else 0)
  {
    assert s == s[..i] + ([s[i]] + s[i + 1..]);
    PredictedConcat(s[..i], [s[i]] + s[i + 1..], t);
    PredictedConcat([s[i]], s[i + 1..], t);
    PredictedConcat(s[..i], s[i + 1..], t);
    assert [s[i]][..0] == [];
  }

  lemma {:induction false} PredictedConcat(a: seq<Key>, b: seq<Key>, t: Target)
    ensures Predicted(a + b, t) == Predicted(a, t) + Predicted(b, t)
  {
    if b == [] {
      assert a + b == a;
    } else {
      PredictedConcat(a, b[..|b| - 1], t);
      assert (a + b)[..|a + b| - 1] == a + b[..|b| - 1];
    }
  }

  /**
   * Neither the counts of a target type nor what the overall counts are made of depend on the order of the
   * predictions.
   */
  lemma OrderIrrelevant(a: seq<Key>, b: seq<Key>, truth: set<Key>, t: Target, x: Counts, y: Counts)
    requires multiset(a) == multiset(b)
    requires Exact(a, truth, t, x) && Exact(b, truth, t, y)
    ensures x == y
    ensures Keys(a) == Keys(b) && |a| == |b|
  {
    PredictedByMultiset(a, b, t);
    forall k ensures k in a <==> k in b {
      assert k in multiset(a) <==> k in multiset(b);
    }
    assert Keys(a) == Keys(b);
    assert |multiset(a)| == |a| && |multiset(b)| == |b|;
  }
}

/** What the timeline, the clusters and the anomalies of a log say about its lines. */
module LogEvidence {
  import opened Basics
  import opened LogIntelligence

  // ---------- the timeline ----------

  /** Sooner, or at the same time on an earlier line. */
  predicate Sooner(a: Event, b: Event) {
    a.time < b.time || (a.time == b.time && a.line < b.line)
  }

  ghost predicate Chronological(es: seq<Event>) {
    forall i, j :: 0 <= i < j < |es| ==> Sooner(es[i], es[j])
  }

  /** The event is what line i of the log says, numbered from 1. */
  ghost predicate FromLine(lines: seq<Line>, i: int, e: Event) {
    0 <= i < |lines| && lines[i].Matched?
    && e.line == i + 1 && e.time == lines[i].fields.time && e.level == lines[i].fields.level
    && e.message == lines[i].fields.message && e.cluster == lines[i].fields.cluster
  }

  lemma {:induction false} EventsFromLines(lines: seq<Line>, k: nat, e: Event)
    requires k <= |lines|
    ensures e in EventsOf(lines, k) <==> exists i :: i < k && FromLine(lines, i, e)
  {
    if k > 0 {
      EventsFromLines(lines, k - 1, e);
      if lines[k - 1].Matched? && e == EventOf(lines, k - 1) {
        assert FromLine(lines, k - 1, e);
      }
    }
  }

  /** The timeline of a parsed log lists exactly what its matching lines say, each once, in chronological order. */
  lemma TimelineExactly(lines: seq<Line>, e: Event)
    requires ParseOf(lines).Ok?
    ensures var t := ParseOf(lines).value;
            && Chronological(t.events)
            && (e in t.events <==> exists i :: FromLine(lines, i, e))
            && |t.events| + t.rejected == |lines|
  {
    ParsesExactly(lines);
    EventsFromLines(lines, |lines|, e);
    var es := EventsOf(lines, |lines|);
    assert e in ParseOf(lines).value.events <==> e in multiset(es);
    hide EventsOf;
    hide ParseOf;
  }

  // ---------- clusters ----------

  /** es lists exactly the events of the timeline with the fingerprint, in chronological order. */
  ghost predicate Lists(timeline: seq<Event>, id: string, es: seq<Event>) {
    && Chronological(es)
    && forall e :: e in es <==> e in timeline && e.cluster == id
  }

  /** The cluster describes the events es: how many, from when to when, at what levels and on what lines. */
  ghost predicate Describes(c: Cluster, es: seq<Event>) {
    && c.count == |es| > 0
    && c.first == es[0].time && c.representative == es[0].message
    && c.last == es[|es| - 1].time
    && (forall l :: l in c.levels <==> exists k :: 0 <= k < |es| && es[k].level == l)
    && (forall i, j :: 0 <= i < j < |c.levels| ==> StringLess(c.levels[i].Name(), c.levels[j].Name()))
    && |c.lines| == |es| && forall k :: 0 <= k < |es| ==> c.lines[k] == es[k].line
  }

  ghost predicate DescribedBy(timeline: seq<Event>, c: Cluster) {
    exists es :: Lists(timeline, c.identifier, es) && Describes(c, es)
  }

  lemma SelectLists(timeline: seq<Event>, id: string)
    requires InOrder(timeline)
    ensures Lists(timeline, id, Select(timeline, id))
  {
    SelectKeepsOrder(timeline, id);
    SelectExact(timeline, id);
    hide Select;
  }

  lemma ClusterDescribes(id: string, es: seq<Event>)
    requires es != []
    ensures Describes(ClusterOf(id, es), es) && ClusterOf(id, es).identifier == id
  {
    SortedLevelsExact(Levels(es));
    hide SortedLevels;
  }

  /** Larger clusters come first, and equally large ones by name. */
  ghost predicate BySize(cs: seq<Cluster>) {
    forall i, j :: 0 <= i < j < |cs| ==>
      cs[i].count > cs[j].count || (cs[i].count == cs[j].count && StringLess(cs[i].identifier, cs[j].identifier))
  }

  /** There is exactly one cluster for each fingerprint, and it describes exactly the events with that fingerprint. */
  lemma ClustersExactly(timeline: seq<Event>, clusters: seq<Cluster>)
    requires InOrder(timeline) && Clustered(timeline, clusters)
    ensures BySize(clusters)
    ensures forall i :: 0 <= i < |clusters| ==> DescribedBy(timeline, clusters[i])
    ensures forall i, j :: 0 <= i < j < |clusters| ==> clusters[i].identifier != clusters[j].identifier
    ensures forall e :: e in timeline ==> exists c :: c in clusters && c.identifier == e.cluster
  {
    ClustersPartition(timeline, clusters);
    assert BySize(clusters);
    forall i | 0 <= i < |clusters| ensures DescribedBy(timeline, clusters[i]) {
      hide Lists;
      hide Describes;
      hide Select;
      hide ClusterOf;
      hide Ranked;
      var c := clusters[i];
      assert c in clusters;
      SelectLists(timeline, c.identifier);
      ClusterDescribes(c.identifier, Select(timeline, c.identifier));
    }
  }

  // ---------- anomalies ----------

  /** The lines of all events with the fingerprint, in chronological order. */
  ghost predicate LinesOf(timeline: seq<Event>, id: string, lines: seq<nat>) {
    exists es: seq<Event> ::
      Lists(timeline, id, es) && |es| == |lines| && forall k :: 0 <= k < |es| ==> lines[k] == es[k].line
  }

  ghost predicate Occurs(timeline: seq<Event>, id: string, level: Level) {
    exists k :: 0 <= k < |timeline| && timeline[k].cluster == id && timeline[k].level == level
  }

  /** An error or critical event with the fingerprint occurs; a critical one makes it critical. */
  ghost predicate SevereIn(timeline: seq<Event>, a: Anomaly) {
    && a.SevereEvent?
    && (Occurs(timeline, a.cluster, ErrorLevel) || Occurs(timeline, a.cluster, CriticalLevel))
    && a.rank == (if Occurs(timeline, a.cluster, CriticalLevel) then CriticalRank else HighRank)
    && LinesOf(timeline, a.cluster, a.lines)
  }

  /** Three events with the fingerprint, from x over y to z, within ten seconds, in microseconds. */
  predicate ThreeOf(x: Event, y: Event, z: Event, id: string) {
    && x.cluster == id && y.cluster == id && z.cluster == id
    && Sooner(x, y) && Sooner(y, z) && z.time - x.time <= 10 * 1000000
  }

  ghost predicate BurstIn(timeline: seq<Event>, a: Anomaly) {
    && a.Burst? && a.rank == MediumRank
    && (exists x, y, z :: x in timeline && y in timeline && z in timeline && ThreeOf(x, y, z, a.cluster))
    && LinesOf(timeline, a.cluster, a.lines)
  }

  lemma {:induction false} OneListing(timeline: seq<Event>, id: string, a: seq<Event>, b: seq<Event>)
    requires Lists(timeline, id, a) && Lists(timeline, id, b)
    ensures a == b
  {
    SameListing(a, b);
  }

  lemma {:induction false} SameListing(a: seq<Event>, b: seq<Event>)
    requires Chronological(a) && Chronological(b) && forall e :: e in a <==> e in b
    ensures a == b
  {
    EmptyTogether(a, b);
    if a != [] {
      assert a[0] in a && a[0] in b;
      assert b[0] in b && b[0] in a;
      assert a[0] == b[0];
      var x, y := a[1..], b[1..];
      forall e ensures e in x <==> e in y {
        assert e in x <==> e in a && e != a[0] by { TailOf(a, e); }
        assert e in y <==> e in b && e != b[0] by { TailOf(b, e); }
      }
      SameListing(x, y);
      assert a == [a[0]] + x && b == [b[0]] + y;
    }
  }

  lemma EmptyTogether(a: seq<Event>, b: seq<Event>)
    requires forall e :: e in a <==> e in b
    ensures a == [] <==> b == []
  {
    if a != [] {
      assert a[0] in b;
    }
    if b != [] {
      assert b[0] in a;
    }
  }

  lemma TailOf(a: seq<Event>, e: Event)
    requires a != [] && Chronological(a)
    ensures e in a[1..] <==> e in a && e != a[0]
  {
    assert a == [a[0]] + a[1..];
  }

  lemma LinesExactly(timeline: seq<Event>, id: string, lines: seq<nat>)
    requires InOrder(timeline)
    ensures LinesOf(timeline, id, lines) <==> lines == Lines(Select(timeline, id))
  {
    SelectLists(timeline, id);
    if es: seq<Event> :| Lists(timeline, id, es) && |es| == |lines|
                         && forall k :: 0 <= k < |es| ==> lines[k] == es[k].line {
      OneListing(timeline, id, es, Select(timeline, id));
    }
    hide Lists;
    hide Select;
  }

  lemma LevelExactly(timeline: seq<Event>, id: string, level: Level)
    ensures level in SortedLevels(Levels(Select(timeline, id))) <==> Occurs(timeline, id, level)
  {
    SelectExact(timeline, id);
    SortedLevelsExact(Levels(Select(timeline, id)));
    hide SortedLevels;
    hide Select;
    if Occurs(timeline, id, level) {
      var k :| 0 <= k < |timeline| && timeline[k].cluster == id && timeline[k].level == level;
      assert timeline[k] in Select(timeline, id);
    }
  }

  lemma SevereExactly(timeline: seq<Event>, c: Cluster, a: Anomaly)
    requires InOrder(timeline) && Select(timeline, c.identifier) != []
    requires c == ClusterOf(c.identifier, Select(timeline, c.identifier))
    ensures a == SevereOf(c) && IsSevere(c) <==> a.cluster == c.identifier && SevereIn(timeline, a)
  {
    LinesExactly(timeline, c.identifier, a.lines);
    LevelExactly(timeline, c.identifier, ErrorLevel);
    LevelExactly(timeline, c.identifier, CriticalLevel);
    hide Select;
    hide LinesOf;
    hide Occurs;
    hide SortedLevels;
    hide InOrder;
  }

  lemma ThreeExactly(timeline: seq<Event>, id: string)
    requires InOrder(timeline)
    ensures ThreeWithin(Select(timeline, id)) <==>
            exists x, y, z :: x in timeline && y in timeline && z in timeline && ThreeOf(x, y, z, id)
  {
    SelectLists(timeline, id);
    var es := Select(timeline, id);
    hide Select;
    if i: nat, j: nat, k: nat :| Triple(es, i, j, k) {
      assert es[i] in es && es[j] in es && es[k] in es;
      assert ThreeOf(es[i], es[j], es[k], id);
    }
    if x, y, z :| x in timeline && y in timeline && z in timeline && ThreeOf(x, y, z, id) {
      assert x in es && y in es && z in es;
      var i: nat :| i < |es| && es[i] == x;
      var j: nat :| j < |es| && es[j] == y;
      var k: nat :| k < |es| && es[k] == z;
      InListing(es, i, j);
      InListing(es, j, k);
      assert Triple(es, i, j, k);
    }
  }

  lemma InListing(es: seq<Event>, i: nat, j: nat)
    requires Chronological(es) && i < |es| && j < |es| && Sooner(es[i], es[j])
    ensures i < j
  {}

  lemma BurstExactly(timeline: seq<Event>, c: Cluster, a: Anomaly)
    requires InOrder(timeline) && Select(timeline, c.identifier) != []
    requires c == ClusterOf(c.identifier, Select(timeline, c.identifier))
    ensures a == BurstOf(c) && ThreeWithin(Select(timeline, c.identifier)) <==>
            a.cluster == c.identifier && BurstIn(timeline, a)
  {
    LinesExactly(timeline, c.identifier, a.lines);
    ThreeExactly(timeline, c.identifier);
    hide Select;
    hide LinesOf;
    hide ThreeOf;
    hide ThreeWithin;
    hide SortedLevels;
    hide InOrder;
  }

  /** An anomaly names a fingerprint that occurs, so there is a cluster for it. */
  lemma AnomalyHasCluster(timeline: seq<Event>, clusters: seq<Cluster>, a: Anomaly)
    requires Clustered(timeline, clusters)
    requires SevereIn(timeline, a) || BurstIn(timeline, a)
    ensures exists c :: c in clusters && c.identifier == a.cluster
  {
    if SevereIn(timeline, a) {
      var level := if Occurs(timeline, a.cluster, ErrorLevel) then ErrorLevel else CriticalLevel;
      var k :| 0 <= k < |timeline| && timeline[k].cluster == a.cluster && timeline[k].level == level;
      assert timeline[k] in timeline;
    } else {
      var x, y, z :| x in timeline && y in timeline && z in timeline && ThreeOf(x, y, z, a.cluster);
    }
    assert a.cluster in Ids(timeline);
    hide Ranked;
    hide Select;
  }

  /** The anomalies that are found are exactly the severe fingerprints and the bursts of the timeline. */
  lemma AnomaliesExactly(timeline: seq<Event>, clusters: seq<Cluster>, a: Anomaly)
    requires InOrder(timeline) && Clustered(timeline, clusters)
    ensures Justified(timeline, clusters, a) <==> SevereIn(timeline, a) || BurstIn(timeline, a)
  {
    forall c | c in clusters
      ensures a == SevereOf(c) && IsSevere(c) <==> a.cluster == c.identifier && SevereIn(timeline, a)
      ensures a == BurstOf(c) && ThreeWithin(Select(timeline, c.identifier)) <==>
              a.cluster == c.identifier && BurstIn(timeline, a)
    {
      SevereExactly(timeline, c, a);
      BurstExactly(timeline, c, a);
    }
    hide Clustered;
    hide Select;
    hide IsSevere;
    hide ThreeWithin;
    hide SevereIn;
    hide BurstIn;
    hide SevereOf;
    hide BurstOf;
    if SevereIn(timeline, a) || BurstIn(timeline, a) {
      AnomalyHasCluster(timeline, clusters, a);
    }
  }

  /** Critical anomalies come before high ones and these before bursts; within a rank the first line decides. */
  lemma PriorityExactly(a: Anomaly, b: Anomaly)
    requires a.lines != [] && b.lines != []
    ensures NotAfter(a, b) <==>
            || (a.rank == CriticalRank && b.rank != CriticalRank)
            || (a.rank == HighRank && b.rank == MediumRank)
            || (a.rank == b.rank && a.lines[0] <= b.lines[0])
  {}
}

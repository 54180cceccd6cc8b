/**
 * Clustering parsed log lines and detecting anomalies in the clusters. What the log pattern, the date parser,
 * the sanitiser and the fingerprint make of a line is given.
 */
module LogIntelligence {
  import opened Basics

  datatype Level = Trace | Debug | Info | WarningLevel | ErrorLevel | CriticalLevel
  {
    function Name(): string {
      match this
      case Trace => "trace"
      case Debug => "debug"
      case Info => "info"
      case WarningLevel => "warning"
      case ErrorLevel => "error"
      case CriticalLevel => "critical"
    }
  }

  /** The fields of a line; time in microseconds. */
  datatype Parsed = Parsed(time: int, level: Level, message: string, cluster: string)

  /** The pattern checks digits only: a line may match it although no such date or time exists. */
  datatype Line = NoMatch | NoSuchTime | Matched(fields: Parsed)

  datatype Event = Event(line: nat, time: int, level: Level, message: string, cluster: string)

  // ---------- the timeline ----------

  /** Order of the timeline: by time, then by line number. */
  predicate Before(a: Event, b: Event) {
    a.time < b.time || (a.time == b.time && a.line < b.line)
  }

  ghost predicate InOrder(es: seq<Event>) {
    forall i, j :: 0 <= i < j < |es| ==> Before(es[i], es[j])
  }

  function InsertEvent(e: Event, es: seq<Event>): seq<Event> {
    if es == [] || Before(e, es[0]) then [e] + es else [es[0]] + InsertEvent(e, es[1..])
  }

  /** `timeline.sort(key=...)` */
  function SortEvents(es: seq<Event>): seq<Event> {
    if es == [] then [] else InsertEvent(es[0], SortEvents(es[1..]))
  }

  ghost predicate DistinctLines(es: seq<Event>) {
    forall i, j :: 0 <= i < j < |es| ==> es[i].line != es[j].line
  }

  lemma {:induction false} InsertEventSorts(e: Event, es: seq<Event>)
    requires InOrder(es) && forall i :: 0 <= i < |es| ==> es[i].line != e.line
    ensures InOrder(InsertEvent(e, es))
    ensures multiset(InsertEvent(e, es)) == multiset(es) + multiset{e}
  {
    if es != [] && !Before(e, es[0]) {
      var rest := InsertEvent(e, es[1..]);
      InsertEventSorts(e, es[1..]);
      assert es == [es[0]] + es[1..];
      forall j | 0 <= j < |rest| ensures Before(es[0], rest[j]) {
        assert rest[j] in multiset(rest);
        assert rest[j] == e || rest[j] in es[1..];
      }
    }
  }

  lemma {:induction false} SortEventsSorts(es: seq<Event>)
    requires DistinctLines(es)
    ensures InOrder(SortEvents(es)) && multiset(SortEvents(es)) == multiset(es)
  {
    if es != [] {
      SortEventsSorts(es[1..]);
      var rest := SortEvents(es[1..]);
      forall i | 0 <= i < |rest| ensures rest[i].line != es[0].line {
        assert rest[i] in multiset(es[1..]);
        var j :| 0 <= j < |es[1..]| && es[1..][j] == rest[i];
        assert es[j + 1] == rest[i];
      }
      InsertEventSorts(es[0], rest);
      assert es == [es[0]] + es[1..];
    }
  }

  function EventOf(lines: seq<Line>, k: nat): Event
    requires k < |lines| && lines[k].Matched?
  {
    var p := lines[k].fields;
    Event(k + 1, p.time, p.level, p.message, p.cluster)
  }

  /** The events of the parsed lines among the first k, numbered from 1. */
  function EventsOf(lines: seq<Line>, k: nat): (es: seq<Event>)
    requires k <= |lines|
    ensures |es| <= k
    ensures forall i :: 0 <= i < |es| ==> 1 <= es[i].line <= k
  {
    if k == 0 then []
    else if lines[k - 1].Matched? then EventsOf(lines, k - 1) + [EventOf(lines, k - 1)]
    else EventsOf(lines, k - 1)
  }

  /** The first of the first k lines that matches without being a possible time. */
  function FirstImpossible(lines: seq<Line>, k: nat): Option<nat>
    requires k <= |lines|
  {
    if k == 0 then None
    else if FirstImpossible(lines, k - 1).Some? then FirstImpossible(lines, k - 1)
    else if lines[k - 1].NoSuchTime? then Some(k)
    else None
  }

  function Unmatched(lines: seq<Line>, k: nat): nat
    requires k <= |lines|
  {
    if k == 0 then 0 else Unmatched(lines, k - 1) + (if lines[k - 1].NoMatch? then 1 else 0)
  }

  datatype Timeline = Timeline(events: seq<Event>, rejected: nat)

  /** The number of the line whose timestamp could not be parsed. */
  datatype ParseError = ImpossibleTimestamp(line: nat)

  function ParseOf(lines: seq<Line>): Result<Timeline, ParseError> {
    var n := |lines|;
    if FirstImpossible(lines, n).Some? then Err(ImpossibleTimestamp(FirstImpossible(lines, n).value))
    else Ok(Timeline(SortEvents(EventsOf(lines, n)), Unmatched(lines, n)))
  }

  lemma {:induction false} ImpossibleExactly(lines: seq<Line>, k: nat)
    requires k <= |lines|
    ensures FirstImpossible(lines, k).None? <==> forall i :: 0 <= i < k ==> !lines[i].NoSuchTime?
    ensures FirstImpossible(lines, k).Some? ==>
            var n := FirstImpossible(lines, k).value;
            1 <= n <= k && lines[n - 1].NoSuchTime? && forall i :: 0 <= i < n - 1 ==> !lines[i].NoSuchTime?
  {
    if k > 0 {
      ImpossibleExactly(lines, k - 1);
    }
  }

  lemma {:induction false} ImpossibleStays(lines: seq<Line>, j: nat, k: nat)
    requires j <= k <= |lines| && FirstImpossible(lines, j).Some?
    ensures FirstImpossible(lines, k) == FirstImpossible(lines, j)
    decreases k
  {
    if j < k {
      ImpossibleStays(lines, j, k - 1);
    }
  }

  lemma {:induction false} LinesAccounted(lines: seq<Line>, k: nat)
    requires k <= |lines| && FirstImpossible(lines, k).None?
    ensures |EventsOf(lines, k)| + Unmatched(lines, k) == k
  {
    if k > 0 {
      LinesAccounted(lines, k - 1);
    }
  }

  lemma {:induction false} EventsDistinct(lines: seq<Line>, k: nat)
    requires k <= |lines|
    ensures DistinctLines(EventsOf(lines, k))
  {
    if k > 0 {
      EventsDistinct(lines, k - 1);
    }
  }

  method Parse(lines: seq<Line>) returns (r: Result<Timeline, ParseError>)
    ensures r == ParseOf(lines)
  {
    var events: seq<Event>, rejected: nat := [], 0;
    for k := 0 to |lines|
      invariant FirstImpossible(lines, k).None?
      invariant events == EventsOf(lines, k) && rejected == Unmatched(lines, k)
    {
      match lines[k]
      case NoMatch => rejected := rejected + 1;
      case NoSuchTime =>
        ImpossibleStays(lines, k + 1, |lines|);
        return Err(ImpossibleTimestamp(k + 1));
      case Matched(p) => events := events + [Event(k + 1, p.time, p.level, p.message, p.cluster)];
    }
    return Ok(Timeline(SortEvents(events), rejected));
  }

  /**
   * A batch parses exactly when none of its lines matches with an impossible timestamp. Its timeline then holds
   * exactly the parsed lines, strictly ordered by time and line, and every line is on it or counted as rejected;
   * otherwise the first impossible line fails the whole batch.
   */
  lemma ParsesExactly(lines: seq<Line>)
    ensures ParseOf(lines).Ok? <==> forall i :: 0 <= i < |lines| ==> !lines[i].NoSuchTime?
    ensures ParseOf(lines).Ok? ==>
            var t := ParseOf(lines).value;
            && InOrder(t.events) && multiset(t.events) == multiset(EventsOf(lines, |lines|))
            && |t.events| + t.rejected == |lines| && t.rejected == Unmatched(lines, |lines|)
    ensures ParseOf(lines).Err? ==>
            var n := ParseOf(lines).error.line;
            1 <= n <= |lines| && lines[n - 1].NoSuchTime? && forall i :: 0 <= i < n - 1 ==> !lines[i].NoSuchTime?
  {
    ImpossibleExactly(lines, |lines|);
    if ParseOf(lines).Ok? {
      var es := EventsOf(lines, |lines|);
      EventsDistinct(lines, |lines|);
      SortEventsSorts(es);
      LinesAccounted(lines, |lines|);
      assert |multiset(SortEvents(es))| == |SortEvents(es)| && |multiset(es)| == |es|;
    }
  }

  /** One line that matches with an impossible timestamp makes any batch fail, whatever the other lines are. */
  lemma OneImpossibleLineFails(before: seq<Line>, after: seq<Line>)
    ensures ParseOf(before + [NoSuchTime] + after).Err?
    ensures ParseOf(before).Ok? ==> ParseOf(before + [NoSuchTime] + after) == Err(ImpossibleTimestamp(|before| + 1))
  {
    var lines := before + [NoSuchTime] + after;
    assert lines[|before|].NoSuchTime?;
    ParsesExactly(lines);
    ParsesExactly(before);
    if ParseOf(before).Ok? {
      assert forall i :: 0 <= i < |before| ==> lines[i] == before[i];
      assert ParseOf(lines).error.line == |before| + 1;
    }
  }

  // ---------- clusters ----------

  /** The events of one cluster, in timeline order. */
  function Select(es: seq<Event>, cluster: string): seq<Event> {
    if es == [] then [] else
      Select(es[..|es| - 1], cluster) + (if es[|es| - 1].cluster == cluster then [es[|es| - 1]] else [])
  }

  function Ids(es: seq<Event>): set<string> {
    set e | e in es :: e.cluster
  }

  lemma {:induction false} SelectExact(es: seq<Event>, cluster: string)
    ensures forall e :: e in Select(es, cluster) <==> e in es && e.cluster == cluster
    ensures Select(es, cluster) == [] <==> cluster !in Ids(es)
  {
    if es != [] {
      SelectExact(es[..|es| - 1], cluster);
      assert es == es[..|es| - 1] + [es[|es| - 1]];
      var members := Select(es, cluster);
      if members != [] {
        assert members[0] in members;
      }
      if cluster in Ids(es) {
        var e :| e in es && e.cluster == cluster;
        assert e in members;
      }
    }
  }

  lemma {:induction false} SelectKeepsOrder(es: seq<Event>, cluster: string)
    requires InOrder(es)
    ensures InOrder(Select(es, cluster))
  {
    if es != [] {
      var before, last := es[..|es| - 1], es[|es| - 1];
      SelectKeepsOrder(before, cluster);
      SelectExact(before, cluster);
      forall i | 0 <= i < |Select(before, cluster)| ensures Before(Select(before, cluster)[i], last) {
        var j :| 0 <= j < |before| && before[j] == Select(before, cluster)[i];
        assert es[j] == before[j];
      }
    }
  }

  /** A dictionary of event lists that remembers the order in which its keys were first used. */
  datatype Groups = Groups(keys: seq<string>, members: map<string, seq<Event>>)

  ghost predicate Grouped(es: seq<Event>, g: Groups) {
    && (forall i, j :: 0 <= i < j < |g.keys| ==> g.keys[i] != g.keys[j])
    && (forall id :: id in g.keys <==> id in Ids(es))
    && (forall id :: id in g.members <==> id in Ids(es))
    && forall id :: id in g.members ==> g.members[id] == Select(es, id)
  }

  /** `grouped[event["cluster_id"]].append(event)` */
  function Filed(g: Groups, e: Event): Groups {
    if e.cluster in g.members then g.(members := g.members[e.cluster := g.members[e.cluster] + [e]])
    else Groups(g.keys + [e.cluster], g.members[e.cluster := [e]])
  }

  lemma IdsAppend(es: seq<Event>, e: Event)
    ensures Ids(es + [e]) == Ids(es) + {e.cluster}
  {}

  lemma SelectAppend(es: seq<Event>, e: Event, id: string)
    ensures Select(es + [e], id) == Select(es, id) + (if e.cluster == id then [e] else [])
  {}

  lemma FiledGrouped(es: seq<Event>, g: Groups, e: Event)
    requires Grouped(es, g)
    ensures Grouped(es + [e], Filed(g, e))
  {
    hide Select;
    hide Ids;
    IdsAppend(es, e);
    SelectExact(es, e.cluster);
    var after := Filed(g, e);
    forall id | id in after.members ensures after.members[id] == Select(es + [e], id) {
      SelectAppend(es, e, id);
    }
  }

  method GroupEvents(timeline: seq<Event>) returns (g: Groups)
    ensures Grouped(timeline, g)
  {
    hide Grouped;
    g := Groups([], map[]);
    assert Grouped(timeline[..0], g) by { NothingGrouped(); }
    for k := 0 to |timeline|
      invariant Grouped(timeline[..k], g)
    {
      FiledGrouped(timeline[..k], g, timeline[k]);
      assert timeline[..k] + [timeline[k]] == timeline[..k + 1];
      g := Filed(g, timeline[k]);
    }
    assert timeline[..|timeline|] == timeline;
  }

  lemma NothingGrouped()
    ensures Grouped([], Groups([], map[]))
  {}

  datatype Cluster = Cluster(identifier: string, count: nat, first: int, last: int, levels: seq<Level>,
                             representative: string, lines: seq<nat>)

  function Lines(es: seq<Event>): seq<nat> {
    seq(|es|, i requires 0 <= i < |es| => es[i].line)
  }

  function Levels(es: seq<Event>): set<Level> {
    set e | e in es :: e.level
  }

  function Chosen(order: seq<Level>, levels: set<Level>): seq<Level> {
    if order == [] then [] else (if order[0] in levels then [order[0]] else []) + Chosen(order[1..], levels)
  }

  function ByName(): seq<Level> {
    [CriticalLevel, Debug, ErrorLevel, Info, Trace, WarningLevel]
  }

  /** `sorted({...})` */
  function SortedLevels(levels: set<Level>): seq<Level> {
    Chosen(ByName(), levels)
  }

  ghost predicate InNameOrder(levels: seq<Level>) {
    forall i, j :: 0 <= i < j < |levels| ==> StringLess(levels[i].Name(), levels[j].Name())
  }

  lemma {:induction false} ChosenExact(order: seq<Level>, levels: set<Level>)
    requires InNameOrder(order)
    ensures InNameOrder(Chosen(order, levels))
    ensures forall l :: l in Chosen(order, levels) <==> l in order && l in levels
  {
    if order != [] {
      ChosenExact(order[1..], levels);
      assert order == [order[0]] + order[1..];
      var rest := Chosen(order[1..], levels);
      forall j | 0 <= j < |rest| ensures StringLess(order[0].Name(), rest[j].Name()) {
        assert rest[j] in order[1..];
      }
      hide StringLess;
    }
  }

  /** A cluster's levels are listed once each, in the order of their names. */
  lemma SortedLevelsExact(levels: set<Level>)
    ensures InNameOrder(SortedLevels(levels))
    ensures forall l :: l in SortedLevels(levels) <==> l in levels
  {
    var order := ByName();
    assert order[0] == CriticalLevel && order[1] == Debug && order[2] == ErrorLevel
        && order[3] == Info && order[4] == Trace && order[5] == WarningLevel;
    forall l: Level ensures l in order {
      match l
      case CriticalLevel => assert order[0] == l;
      case Debug => assert order[1] == l;
      case ErrorLevel => assert order[2] == l;
      case Info => assert order[3] == l;
      case Trace => assert order[4] == l;
      case WarningLevel => assert order[5] == l;
    }
    ChosenExact(order, levels);
    hide Chosen;
  }

  function ClusterOf(id: string, es: seq<Event>): Cluster
    requires es != []
  {
    Cluster(id, |es|, es[0].time, es[|es| - 1].time, SortedLevels(Levels(es)), es[0].message, Lines(es))
  }

  /** Larger clusters first, then by identifier. */
  predicate Ahead(a: Cluster, b: Cluster) {
    a.count > b.count || (a.count == b.count && StringLess(a.identifier, b.identifier))
  }

  function InsertCluster(c: Cluster, cs: seq<Cluster>): seq<Cluster> {
    if cs == [] || !Ahead(cs[0], c) then [c] + cs else [cs[0]] + InsertCluster(c, cs[1..])
  }

  function SortClusters(cs: seq<Cluster>): seq<Cluster> {
    if cs == [] then [] else InsertCluster(cs[0], SortClusters(cs[1..]))
  }

  ghost predicate Ranked(cs: seq<Cluster>) {
    forall i, j :: 0 <= i < j < |cs| ==> Ahead(cs[i], cs[j])
  }

  lemma AheadTotal(a: Cluster, b: Cluster)
    requires a.identifier != b.identifier
    ensures Ahead(a, b) || Ahead(b, a)
  {
    StringLessTotal(a.identifier, b.identifier);
  }

  lemma AheadTransitive(a: Cluster, b: Cluster, c: Cluster)
    requires Ahead(a, b) && Ahead(b, c)
    ensures Ahead(a, c)
  {
    if StringLess(a.identifier, b.identifier) && StringLess(b.identifier, c.identifier) {
      StringLessTransitive(a.identifier, b.identifier, c.identifier);
    }
  }

  lemma {:induction false} InsertClusterRanks(c: Cluster, cs: seq<Cluster>)
    requires Ranked(cs) && forall i :: 0 <= i < |cs| ==> cs[i].identifier != c.identifier
    ensures Ranked(InsertCluster(c, cs))
    ensures |InsertCluster(c, cs)| == |cs| + 1
    ensures forall x :: x in InsertCluster(c, cs) <==> x == c || x in cs
  {
    hide Ahead;
    if cs != [] {
      assert cs == [cs[0]] + cs[1..];
      if Ahead(cs[0], c) {
        InsertClusterRanks(c, cs[1..]);
        var rest := InsertCluster(c, cs[1..]);
        forall j | 0 <= j < |rest| ensures Ahead(cs[0], rest[j]) {
          assert rest[j] in rest;
        }
      } else {
        AheadTotal(c, cs[0]);
        forall j | 0 < j < |cs| ensures Ahead(c, cs[j]) {
          AheadTransitive(c, cs[0], cs[j]);
        }
      }
    }
  }

  lemma {:induction false} SortClustersRanks(cs: seq<Cluster>)
    requires forall i, j :: 0 <= i < j < |cs| ==> cs[i].identifier != cs[j].identifier
    ensures Ranked(SortClusters(cs)) && |SortClusters(cs)| == |cs|
    ensures forall x :: x in SortClusters(cs) <==> x in cs
  {
    hide Ahead;
    if cs != [] {
      SortClustersRanks(cs[1..]);
      var rest := SortClusters(cs[1..]);
      forall i | 0 <= i < |rest| ensures rest[i].identifier != cs[0].identifier {
        assert rest[i] in cs[1..];
        var j :| 0 <= j < |cs[1..]| && cs[1..][j] == rest[i];
        assert cs[j + 1] == rest[i];
      }
      InsertClusterRanks(cs[0], rest);
      assert cs == [cs[0]] + cs[1..];
    }
  }

  /**
   * The clusters are exactly those of the timeline's fingerprints, each once, ranked, each listing all its
   * events in order.
   */
  ghost predicate Clustered(timeline: seq<Event>, clusters: seq<Cluster>) {
    && Ranked(clusters)
    && |clusters| == |Ids(timeline)|
    && (forall c :: c in clusters ==>
        Select(timeline, c.identifier) != [] && c == ClusterOf(c.identifier, Select(timeline, c.identifier)))
    && (forall id :: id in Ids(timeline) ==> exists c :: c in clusters && c.identifier == id)
  }

  /** One cluster per group, in the order of the groups. */
  function Unsorted(timeline: seq<Event>, keys: seq<string>): seq<Cluster>
    requires forall i :: 0 <= i < |keys| ==> Select(timeline, keys[i]) != []
  {
    seq(|keys|, i requires 0 <= i < |keys| => ClusterOf(keys[i], Select(timeline, keys[i])))
  }

  lemma SelectedKeys(timeline: seq<Event>, g: Groups)
    requires Grouped(timeline, g)
    ensures forall i :: 0 <= i < |g.keys| ==> Select(timeline, g.keys[i]) != []
  {
    forall i | 0 <= i < |g.keys| ensures Select(timeline, g.keys[i]) != [] {
      assert g.keys[i] in g.keys;
      SelectExact(timeline, g.keys[i]);
    }
  }

  lemma {:induction false} DistinctCount(keys: seq<string>, ids: set<string>)
    requires forall i, j :: 0 <= i < j < |keys| ==> keys[i] != keys[j]
    requires forall id :: id in keys <==> id in ids
    ensures |keys| == |ids|
  {
    if keys == [] {
      assert ids == {};
    } else {
      assert keys == [keys[0]] + keys[1..];
      DistinctCount(keys[1..], ids - {keys[0]});
    }
  }

  lemma SortedIsClustered(timeline: seq<Event>, g: Groups)
    requires Grouped(timeline, g)
    requires forall i :: 0 <= i < |g.keys| ==> Select(timeline, g.keys[i]) != []
    ensures Clustered(timeline, SortClusters(Unsorted(timeline, g.keys)))
  {
    hide Ranked;
    hide ClusterOf;
    hide Select;
    hide Ids;
    var unsorted := Unsorted(timeline, g.keys);
    forall i | 0 <= i < |g.keys| ensures unsorted[i].identifier == g.keys[i] {
      Identified(g.keys[i], Select(timeline, g.keys[i]));
    }
    SortClustersRanks(unsorted);
    DistinctCount(g.keys, Ids(timeline));
    forall id | id in Ids(timeline) ensures exists c :: c in SortClusters(unsorted) && c.identifier == id {
      var i :| 0 <= i < |g.keys| && g.keys[i] == id;
      assert unsorted[i] in unsorted;
    }
  }

  lemma Identified(id: string, es: seq<Event>)
    requires es != []
    ensures ClusterOf(id, es).identifier == id
  {}

  method DescribeCluster(id: string, events: seq<Event>) returns (c: Cluster)
    requires events != []
    ensures c == ClusterOf(id, events)
  {
    c := Cluster(id, |events|, events[0].time, events[|events| - 1].time,
                 SortedLevels(set e | e in events :: e.level),
                 events[0].message, Lines(events));
  }

  method ClusterEvents(timeline: seq<Event>) returns (clusters: seq<Cluster>)
    ensures Clustered(timeline, clusters)
  {
    hide Clustered;
    hide ClusterOf;
    hide Select;
    hide Ids;
    var g := GroupEvents(timeline);
    SelectedKeys(timeline, g);
    var result: seq<Cluster> := [];
    for k := 0 to |g.keys|
      invariant |result| == k
      invariant forall i :: 0 <= i < k ==> result[i] == ClusterOf(g.keys[i], Select(timeline, g.keys[i]))
    {
      var id := g.keys[k];
      assert id in g.keys;
      var c := DescribeCluster(id, g.members[id]);
      result := result + [c];
    }
    assert result == Unsorted(timeline, g.keys);
    SortedIsClustered(timeline, g);
    return SortClusters(result);
  }

  // ---------- the clusters partition the timeline ----------

  function SelectedTotal(es: seq<Event>, ids: seq<string>): nat {
    if ids == [] then 0 else SelectedTotal(es, ids[..|ids| - 1]) + |Select(es, ids[|ids| - 1])|
  }

  lemma {:induction false} TotalGrows(es: seq<Event>, e: Event, ids: seq<string>)
    requires forall i, j :: 0 <= i < j < |ids| ==> ids[i] != ids[j]
    ensures SelectedTotal(es + [e], ids) == SelectedTotal(es, ids) + (if e.cluster in ids then 1 else 0)
  {
    hide Select;
    if ids != [] {
      var last := |ids| - 1;
      TotalGrows(es, e, ids[..last]);
      SelectAppend(es, e, ids[last]);
      assert ids == ids[..last] + [ids[last]];
    }
  }

  lemma {:induction false} NothingSelected(ids: seq<string>)
    ensures SelectedTotal([], ids) == 0
  {
    if ids != [] {
      NothingSelected(ids[..|ids| - 1]);
    }
  }

  lemma {:induction false} TotalIsAll(es: seq<Event>, ids: seq<string>)
    requires forall i, j :: 0 <= i < j < |ids| ==> ids[i] != ids[j]
    requires forall e :: e in es ==> e.cluster in ids
    ensures SelectedTotal(es, ids) == |es|
  {
    if es == [] {
      NothingSelected(ids);
    } else {
      var before, last := es[..|es| - 1], es[|es| - 1];
      assert es == before + [last];
      TotalIsAll(before, ids);
      TotalGrows(before, last, ids);
    }
  }

  function ClusterIds(cs: seq<Cluster>): seq<string> {
    seq(|cs|, i requires 0 <= i < |cs| => cs[i].identifier)
  }

  function TotalCount(cs: seq<Cluster>): nat {
    if cs == [] then 0 else TotalCount(cs[..|cs| - 1]) + cs[|cs| - 1].count
  }

  lemma {:induction false} CountsAreSelected(timeline: seq<Event>, cs: seq<Cluster>)
    requires forall i :: 0 <= i < |cs| ==> cs[i].count == |Select(timeline, cs[i].identifier)|
    ensures TotalCount(cs) == SelectedTotal(timeline, ClusterIds(cs))
  {
    hide Select;
    if cs != [] {
      CountsAreSelected(timeline, cs[..|cs| - 1]);
      assert ClusterIds(cs)[..|cs| - 1] == ClusterIds(cs[..|cs| - 1]);
    }
  }

  lemma ClustersDistinct(timeline: seq<Event>, cs: seq<Cluster>, i: nat, j: nat)
    requires Clustered(timeline, cs) && i < j < |cs|
    ensures cs[i].identifier != cs[j].identifier
  {
    assert cs[i] in cs && cs[j] in cs && Ahead(cs[i], cs[j]);
    NotBelowItself(cs[i].identifier);
  }

  lemma {:induction false} NotBelowItself(s: string)
    ensures !StringLess(s, s)
  {
    if s != [] {
      NotBelowItself(s[1..]);
    }
  }

  /**
   * The clusters partition the timeline: every event is listed by the one cluster of its fingerprint, every
   * cluster lists its events in timeline order, and the counts add up to the number of events.
   */
  lemma ClustersPartition(timeline: seq<Event>, clusters: seq<Cluster>)
    requires InOrder(timeline) && Clustered(timeline, clusters)
    ensures TotalCount(clusters) == |timeline|
    ensures forall i, j :: 0 <= i < j < |clusters| ==> clusters[i].identifier != clusters[j].identifier
    ensures forall c :: c in clusters ==>
              c.lines == Lines(Select(timeline, c.identifier)) && InOrder(Select(timeline, c.identifier))
    ensures forall e :: e in timeline ==>
              exists c :: c in clusters && c.identifier == e.cluster && e in Select(timeline, c.identifier)
  {
    hide Select;
    hide Ranked;
    hide Before;
    hide Levels;
    forall i, j | 0 <= i < j < |clusters| ensures clusters[i].identifier != clusters[j].identifier {
      ClustersDistinct(timeline, clusters, i, j);
    }
    forall i | 0 <= i < |clusters| ensures clusters[i].count == |Select(timeline, clusters[i].identifier)| {
      assert clusters[i] in clusters;
    }
    CountsAreSelected(timeline, clusters);
    forall e | e in timeline
      ensures e.cluster in ClusterIds(clusters)
      ensures exists c :: c in clusters && c.identifier == e.cluster && e in Select(timeline, c.identifier)
    {
      assert e.cluster in Ids(timeline);
      var c :| c in clusters && c.identifier == e.cluster;
      SelectExact(timeline, e.cluster);
      var i :| 0 <= i < |clusters| && clusters[i] == c;
      assert ClusterIds(clusters)[i] == e.cluster;
    }
    TotalIsAll(timeline, ClusterIds(clusters));
    forall c | c in clusters ensures InOrder(Select(timeline, c.identifier)) {
      SelectKeepsOrder(timeline, c.identifier);
    }
  }

  // ---------- anomalies ----------

  const TEN_SECONDS := 10000000

  ghost predicate Triple(es: seq<Event>, i: nat, j: nat, k: nat) {
    i < j < k < |es| && es[k].time - es[i].time <= TEN_SECONDS
  }

  /** Some three events lie within ten seconds. */
  ghost predicate ThreeWithin(es: seq<Event>) {
    exists i: nat, j: nat, k: nat :: Triple(es, i, j, k)
  }

  predicate ConsecutiveTriple(es: seq<Event>, s: nat) {
    s + 2 < |es| && es[s + 2].time - es[s].time <= TEN_SECONDS
  }

  /** Looking at consecutive triples is enough to find any burst. */
  method FindBurst(events: seq<Event>) returns (burst: bool)
    requires InOrder(events)
    ensures burst <==> ThreeWithin(events)
  {
    hide InOrder;
    var start := 0;
    while start + 2 < |events|
      invariant 0 <= start
      invariant forall s: nat :: s < start ==> !ConsecutiveTriple(events, s)
      decreases |events| - start
    {
      if events[start + 2].time - events[start].time <= TEN_SECONDS {
        assert Triple(events, start, start + 1, start + 2);
        return true;
      }
      start := start + 1;
    }
    NoTriple(events);
    return false;
  }

  lemma NoTriple(events: seq<Event>)
    requires InOrder(events)
    requires forall s: nat :: !ConsecutiveTriple(events, s)
    ensures !ThreeWithin(events)
  {
    forall i: nat, j: nat, k: nat ensures !Triple(events, i, j, k) {
      if i < j < k < |events| {
        assert !ConsecutiveTriple(events, i);
        assert i + 2 == k || Before(events[i + 2], events[k]);
      }
    }
  }

  datatype Rank = CriticalRank | HighRank | MediumRank

  datatype Anomaly =
    | SevereEvent(rank: Rank, cluster: string, lines: seq<nat>)
    | Burst(rank: Rank, cluster: string, lines: seq<nat>)

  predicate IsSevere(c: Cluster) {
    ErrorLevel in c.levels || CriticalLevel in c.levels
  }

  function SevereOf(c: Cluster): Anomaly {
    SevereEvent(if CriticalLevel in c.levels then CriticalRank else HighRank, c.identifier, c.lines)
  }

  function BurstOf(c: Cluster): Anomaly {
    Burst(MediumRank, c.identifier, c.lines)
  }

  function Weight(r: Rank): nat {
    match r
    case CriticalRank => 0
    case HighRank => 1
    case MediumRank => 2
  }

  /** Not after, by rank and then by first line. */
  predicate NotAfter(a: Anomaly, b: Anomaly) {
    Weight(a.rank) < Weight(b.rank) ||
    (Weight(a.rank) == Weight(b.rank) && (a.lines == [] || (b.lines != [] && a.lines[0] <= b.lines[0])))
  }

  function InsertAnomaly(a: Anomaly, s: seq<Anomaly>): seq<Anomaly> {
    if s == [] || NotAfter(a, s[0]) then [a] + s else [s[0]] + InsertAnomaly(a, s[1..])
  }

  function SortAnomalies(s: seq<Anomaly>): seq<Anomaly> {
    if s == [] then [] else InsertAnomaly(s[0], SortAnomalies(s[1..]))
  }

  ghost predicate Prioritised(s: seq<Anomaly>) {
    forall i, j :: 0 <= i < j < |s| ==> NotAfter(s[i], s[j])
  }

  lemma NotAfterOrder(a: Anomaly, b: Anomaly, c: Anomaly)
    ensures NotAfter(a, b) || NotAfter(b, a)
    ensures NotAfter(a, b) && NotAfter(b, c) ==> NotAfter(a, c)
  {}

  lemma {:induction false} InsertAnomalySorts(a: Anomaly, s: seq<Anomaly>)
    requires Prioritised(s)
    ensures Prioritised(InsertAnomaly(a, s)) && multiset(InsertAnomaly(a, s)) == multiset(s) + multiset{a}
  {
    hide NotAfter;
    if s != [] {
      assert s == [s[0]] + s[1..];
      NotAfterOrder(a, s[0], s[0]);
      if NotAfter(a, s[0]) {
        forall j | 0 < j < |s| ensures NotAfter(a, s[j]) {
          NotAfterOrder(a, s[0], s[j]);
        }
      } else {
        InsertAnomalySorts(a, s[1..]);
        var rest := InsertAnomaly(a, s[1..]);
        forall j | 0 <= j < |rest| ensures NotAfter(s[0], rest[j]) {
          assert rest[j] in multiset(rest);
          assert rest[j] == a || rest[j] in s[1..];
        }
      }
    }
  }

  lemma {:induction false} SortAnomaliesSorts(s: seq<Anomaly>)
    ensures Prioritised(SortAnomalies(s)) && multiset(SortAnomalies(s)) == multiset(s)
  {
    if s != [] {
      SortAnomaliesSorts(s[1..]);
      InsertAnomalySorts(s[0], SortAnomalies(s[1..]));
      assert s == [s[0]] + s[1..];
    }
  }

  /** The anomaly is the severe-event anomaly of a severe cluster, or the burst anomaly of a cluster with a burst. */
  ghost predicate Justified(timeline: seq<Event>, clusters: seq<Cluster>, a: Anomaly) {
    exists c :: c in clusters &&
      ((a == SevereOf(c) && IsSevere(c)) || (a == BurstOf(c) && ThreeWithin(Select(timeline, c.identifier))))
  }

  function FindCluster(clusters: seq<Cluster>, id: string): Option<Cluster> {
    if clusters == [] then None
    else if clusters[0].identifier == id then Some(clusters[0])
    else FindCluster(clusters[1..], id)
  }

  lemma {:induction false} FindClusterAt(clusters: seq<Cluster>, i: nat)
    requires i < |clusters|
    requires forall p, q :: 0 <= p < q < |clusters| ==> clusters[p].identifier != clusters[q].identifier
    ensures FindCluster(clusters, clusters[i].identifier) == Some(clusters[i])
  {
    if i > 0 {
      FindClusterAt(clusters[1..], i - 1);
    }
  }

  ghost predicate NoRepeats(s: seq<Anomaly>) {
    forall i, j :: 0 <= i < j < |s| ==> s[i] != s[j]
  }

  lemma {:induction false} NoRepeatsOnce(s: seq<Anomaly>, a: Anomaly)
    requires NoRepeats(s)
    ensures multiset(s)[a] <= 1
  {
    if s != [] {
      var last := |s| - 1;
      NoRepeatsOnce(s[..last], a);
      assert s == s[..last] + [s[last]];
      if s[last] == a {
        assert a !in s[..last];
      }
    }
  }

  method SevereEvents(clusters: seq<Cluster>) returns (found: seq<Anomaly>)
    requires forall i, j :: 0 <= i < j < |clusters| ==> clusters[i].identifier != clusters[j].identifier
    ensures forall a :: a in found <==> exists c :: c in clusters && IsSevere(c) && a == SevereOf(c)
    ensures NoRepeats(found)
  {
    hide IsSevere;
    found := [];
    for k := 0 to |clusters|
      invariant forall a :: a in found <==>
                  exists i :: 0 <= i < k && IsSevere(clusters[i]) && a == SevereOf(clusters[i])
      invariant NoRepeats(found)
    {
      var c := clusters[k];
      if IsSevere(c) {
        var a := SevereEvent(if CriticalLevel in c.levels then CriticalRank else HighRank, c.identifier, c.lines);
        assert a !in found;
        found := found + [a];
      }
    }
  }

  /** The burst anomaly of a cluster with one of the given ids. */
  ghost predicate BurstAmong(timeline: seq<Event>, clusters: seq<Cluster>, ids: seq<string>, a: Anomaly) {
    exists c :: c in clusters && c.identifier in ids && ThreeWithin(Select(timeline, c.identifier)) && a == BurstOf(c)
  }

  lemma BurstAmongMore(timeline: seq<Event>, clusters: seq<Cluster>, ids: seq<string>, cluster: Cluster, a: Anomaly)
    requires forall d :: d in clusters && d.identifier == cluster.identifier <==> d == cluster
    ensures BurstAmong(timeline, clusters, ids + [cluster.identifier], a) <==>
            BurstAmong(timeline, clusters, ids, a)
            || (ThreeWithin(Select(timeline, cluster.identifier)) && a == BurstOf(cluster))
  {}

  method Bursts(timeline: seq<Event>, clusters: seq<Cluster>) returns (found: seq<Anomaly>)
    requires InOrder(timeline) && Clustered(timeline, clusters)
    ensures forall a :: a in found <==>
              exists c :: c in clusters && ThreeWithin(Select(timeline, c.identifier)) && a == BurstOf(c)
    ensures NoRepeats(found)
  {
    hide ThreeWithin;
    hide Select;
    hide InOrder;
    hide Clustered;
    hide BurstAmong;
    hide Ids;
    var g := GroupEvents(timeline);
    AllGrouped(timeline, clusters, g);
    found := [];
    NoBurstAmong(timeline, clusters);
    for k := 0 to |g.keys|
      invariant forall a :: a in found <==> BurstAmong(timeline, clusters, g.keys[..k], a)
      invariant NoRepeats(found)
    {
      var id := g.keys[k];
      assert id in g.keys;
      SelectKeepsOrder(timeline, id);
      var burst := FindBurst(g.members[id]);
      var cluster := RequireCluster(timeline, clusters, id);
      assert g.keys[..k + 1] == g.keys[..k] + [cluster.identifier];
      forall a
        ensures BurstAmong(timeline, clusters, g.keys[..k + 1], a) <==>
                a in found || (burst && a == BurstOf(cluster)) {
        BurstAmongMore(timeline, clusters, g.keys[..k], cluster, a);
      }
      if burst {
        NotYetAmong(timeline, clusters, g.keys[..k], cluster);
        found := found + [Burst(MediumRank, id, cluster.lines)];
      }
    }
    assert g.keys[..|g.keys|] == g.keys;
    forall a ensures BurstAmong(timeline, clusters, g.keys, a) <==>
                     exists c :: c in clusters && ThreeWithin(Select(timeline, c.identifier)) && a == BurstOf(c) {
      AmongAll(timeline, clusters, g.keys, a);
    }
  }

  lemma NotYetAmong(timeline: seq<Event>, clusters: seq<Cluster>, ids: seq<string>, cluster: Cluster)
    requires cluster.identifier !in ids
    ensures !BurstAmong(timeline, clusters, ids, BurstOf(cluster))
  {}

  lemma NoBurstAmong(timeline: seq<Event>, clusters: seq<Cluster>)
    ensures forall a :: !BurstAmong(timeline, clusters, [], a)
  {}

  lemma AmongAll(timeline: seq<Event>, clusters: seq<Cluster>, ids: seq<string>, a: Anomaly)
    requires forall c :: c in clusters ==> c.identifier in ids
    ensures BurstAmong(timeline, clusters, ids, a) <==>
            exists c :: c in clusters && ThreeWithin(Select(timeline, c.identifier)) && a == BurstOf(c)
  {}

  lemma AllGrouped(timeline: seq<Event>, clusters: seq<Cluster>, g: Groups)
    requires Clustered(timeline, clusters) && Grouped(timeline, g)
    ensures forall c :: c in clusters ==> c.identifier in g.keys
  {
    forall c | c in clusters ensures c.identifier in g.keys {
      SelectExact(timeline, c.identifier);
    }
  }

  /** `by_cluster[cluster_id]` */
  method RequireCluster(timeline: seq<Event>, clusters: seq<Cluster>, id: string) returns (c: Cluster)
    requires Clustered(timeline, clusters) && id in Ids(timeline)
    ensures c.identifier == id
    ensures forall d :: d in clusters && d.identifier == id <==> d == c
  {
    forall i, j | 0 <= i < j < |clusters| ensures clusters[i].identifier != clusters[j].identifier {
      ClustersDistinct(timeline, clusters, i, j);
    }
    ghost var d :| d in clusters && d.identifier == id;
    ghost var i :| 0 <= i < |clusters| && clusters[i] == d;
    FindClusterAt(clusters, i);
    c := FindCluster(clusters, id).value;
  }

  lemma BothOnce(severe: seq<Anomaly>, bursts: seq<Anomaly>)
    requires NoRepeats(severe) && forall a :: a in severe ==> a.SevereEvent?
    requires NoRepeats(bursts) && forall a :: a in bursts ==> a.Burst?
    ensures NoRepeats(severe + bursts)
  {
    forall i, j | 0 <= i < |severe| && 0 <= j < |bursts| ensures severe[i] != bursts[j] {
      assert severe[i] in severe && bursts[j] in bursts;
    }
  }

  /** Exactly the justified anomalies, each once, most severe first. */
  method FindAnomalies(timeline: seq<Event>, clusters: seq<Cluster>) returns (anomalies: seq<Anomaly>)
    requires InOrder(timeline) && Clustered(timeline, clusters)
    ensures forall a :: a in anomalies <==> Justified(timeline, clusters, a)
    ensures forall a :: multiset(anomalies)[a] <= 1
    ensures Prioritised(anomalies)
  {
    forall i, j | 0 <= i < j < |clusters| ensures clusters[i].identifier != clusters[j].identifier {
      ClustersDistinct(timeline, clusters, i, j);
    }
    hide Select;
    hide ThreeWithin;
    hide Clustered;
    hide InOrder;
    hide Prioritised;
    hide IsSevere;
    var severe := SevereEvents(clusters);
    var bursts := Bursts(timeline, clusters);
    BothOnce(severe, bursts);
    var found := severe + bursts;
    forall a ensures multiset(found)[a] <= 1 {
      NoRepeatsOnce(found, a);
    }
    SortAnomaliesSorts(found);
    anomalies := SortAnomalies(found);
    forall a ensures a in anomalies <==> Justified(timeline, clusters, a) {
      assert a in anomalies <==> a in multiset(anomalies);
      assert a in found <==> a in multiset(found);
    }
  }
}

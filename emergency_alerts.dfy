/**
 * The emergency alert system (acase7.cpp): keywords found in a log line by
 * KMP search raise alerts of a fixed severity, a breadth-first search
 * tells whether the safe zone can be reached, Dijkstra gives evacuation
 * times, and the alerts leave a max-heap on severity, most severe first.
 * The KMP routines are `StringMatching.BuildLps` and
 * `StringMatching.KmpSearch`.
 */
module EmergencyAlerts {
  import opened Orderings
  import PriorityQueues
  import StringMatching
  import Reachability
  import opened WeightedGraphs
  import Dijkstra

  datatype Alert = Alert(severity: int, message: string)

  /** `emergencyLevel[p]`; `operator[]` gives 0 for a keyword it does not hold. */
  function Level(p: string): (r: int)
    ensures p == "FIRE" ==> r == 10
    ensures p !in {"FIRE", "EARTHQUAKE", "FLOOD", "MEDICAL", "ACCIDENT"} ==> r == 0
  {
    var levels := map["FIRE" := 10, "EARTHQUAKE" := 9, "FLOOD" := 8, "MEDICAL" := 7, "ACCIDENT" := 6];
    if p in levels then levels[p] else 0
  }

  /** The alerts raised for the keywords of `patterns` that occur in `text`, in pattern order. */
  ghost function Raised(text: string, patterns: seq<string>): seq<Alert>
  {
    if patterns == [] then []
    else
      var p := patterns[|patterns| - 1];
      Raised(text, patterns[..|patterns| - 1]) +
      (if exists q :: StringMatching.OccursAt(text, p, q) then [Alert(Level(p), "Emergency Detected: " + p)] else [])
  }

  /** Step 1 of `main`: one alert per keyword found in the log text. */
  method DetectEmergencies(text: string, patterns: seq<string>) returns (alerts: seq<Alert>)
    requires forall k :: 0 <= k < |patterns| ==> |patterns[k]| >= 1
    ensures alerts == Raised(text, patterns)
  {
    alerts := [];
    var k := 0;
    while k < |patterns|
      invariant 0 <= k <= |patterns|
      invariant alerts == Raised(text, patterns[..k])
    {
      var p := patterns[k];
      assert patterns[..k + 1][..k] == patterns[..k];
      var found := StringMatching.KmpSearch(text, p);
      if found {
        alerts := alerts + [Alert(Level(p), "Emergency Detected: " + p)];
      }
      k := k + 1;
    }
    assert patterns[..k] == patterns;
  }

  /** `a` is the alert for keyword `p`, and `p` occurs in `text`. */
  ghost predicate RaisedBy(text: string, p: string, a: Alert)
  {
    a == Alert(Level(p), "Emergency Detected: " + p) && exists q :: StringMatching.OccursAt(text, p, q)
  }

  /** Every alert raised names a keyword of `patterns` found in `text`, at the keyword's level. */
  lemma {:induction false} RaisedSound(text: string, patterns: seq<string>, a: Alert)
    requires a in Raised(text, patterns)
    ensures exists k :: 0 <= k < |patterns| && RaisedBy(text, patterns[k], a)
  {
    var init := patterns[..|patterns| - 1];
    if a in Raised(text, init) {
      RaisedSound(text, init, a);
      var k :| 0 <= k < |init| && RaisedBy(text, init[k], a);
      assert init[k] == patterns[k];
    } else {
      assert RaisedBy(text, patterns[|patterns| - 1], a);
    }
  }

  /** `Compare`: `a` comes out after `b` when it is less severe. */
  predicate LessSevere(a: Alert, b: Alert)
  {
    a.severity < b.severity
  }

  lemma LessSevereOrder()
    ensures StrictWeakOrder(LessSevere)
  {
  }

  /** Step 4 of `main`: the heap's alerts, popped until empty, in non-increasing severity. */
  method ShowAlerts(heap: seq<Alert>) returns (shown: seq<Alert>)
    ensures multiset(shown) == multiset(heap)
    ensures forall i, j :: 0 <= i < j < |shown| ==> shown[i].severity >= shown[j].severity
  {
    LessSevereOrder();
    shown := PriorityQueues.Drain(heap, LessSevere);
    forall i, j | 0 <= i < j < |shown| ensures shown[i].severity >= shown[j].severity {
      assert !LessSevere(shown[i], shown[j]);
    }
  }

  /** `bfsSafeZone(graph, start, safeZone)`. */
  method SafeZoneReachable(graph: Reachability.Adjacency, start: int, safeZone: int) returns (ok: bool)
    requires Reachability.Closed(graph) && 0 <= start < |graph|
    ensures ok <==> Reachability.Reachable(graph, start, safeZone)
    ensures start == safeZone ==> ok
  {
    ok := Reachability.Search(graph, start, safeZone);
  }

  /** `INT_MAX`, the distance left on exits the search does not reach. */
  const IntMax := 2147483647

  /**
   * `dijkstra(graph, src)` of the evacuation planner: it skips queue
   * entries whose distance is above the current one and relaxes from the
   * current distance.
   */
  method EvacuationTimes(g: Graph, src: int) returns (dist: seq<int>)
    requires WellFormed(g) && NonNegative(g) && 0 <= src < |g|
    ensures CappedShortest(g, src, IntMax, dist) && dist[src] == 0
  {
    dist := Dijkstra.ShortestFrom(g, src, IntMax, Dijkstra.SkipIfGreater, Dijkstra.FromCurrent);
  }
}

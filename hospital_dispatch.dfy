/**
 * The hospital emergency planner (acase2.cpp): Dijkstra over the hospital
 * road graph with `INF = 1e9`, a triage queue that serves the most severe
 * patient first, and the dispatch of the available ambulance nearest to
 * the emergency, the earliest listed on ties.
 */
module HospitalDispatch {
  import opened Orderings
  import opened Wrappers
  import opened WeightedGraphs
  import Dijkstra
  import PriorityQueues

  /** `INF`, `1e9` converted to `int`. */
  const Inf := 1000000000

  /** `dijkstra(src, graph)`: stale entries skipped when above the current distance. */
  method HospitalDistances(g: Graph, src: int) returns (dist: seq<int>)
    requires WellFormed(g) && NonNegative(g) && 0 <= src < |g|
    ensures CappedShortest(g, src, Inf, dist) && dist[src] == 0
  {
    dist := Dijkstra.ShortestFrom(g, src, Inf, Dijkstra.SkipIfGreater, Dijkstra.FromCurrent);
  }

  /** `severity`: 3 critical, 2 urgent, 1 normal. */
  datatype Patient = Patient(name: string, condition: string, severity: int)

  /** The triage `Compare`: `a` is served after `b` when it is less severe. */
  predicate LessSevere(a: Patient, b: Patient)
  {
    a.severity < b.severity
  }

  lemma LessSevereOrder()
    ensures StrictWeakOrder(LessSevere)
  {
  }

  /** The triage list: every queued patient once, most severe first. */
  method TriageOrder(triage: seq<Patient>) returns (served: seq<Patient>)
    ensures multiset(served) == multiset(triage)
    ensures forall i, j :: 0 <= i < j < |served| ==> served[i].severity >= served[j].severity
  {
    LessSevereOrder();
    served := PriorityQueues.Drain(triage, LessSevere);
    forall i, j | 0 <= i < j < |served| ensures served[i].severity >= served[j].severity {
      assert !LessSevere(served[i], served[j]);
    }
  }

  datatype Ambulance = Ambulance(id: string, location: int, available: bool)

  /** Every available ambulance stands on a node of the graph. */
  ghost predicate Placed(g: Graph, amb: seq<Ambulance>)
  {
    forall i :: 0 <= i < |amb| && amb[i].available ==> 0 <= amb[i].location < |g|
  }

  /** No walk from an available ambulance among the first `upto` reaches `target` in less than `d`. */
  ghost predicate NoneBelow(g: Graph, amb: seq<Ambulance>, target: int, upto: int, d: int)
    requires WellFormed(g) && Placed(g, amb) && 0 <= upto <= |amb|
  {
    forall i, p :: 0 <= i < upto && amb[i].available && Follow(g, amb[i].location, p) == Some(target)
      ==> Len(g, amb[i].location, p) >= d
  }

  /** Every walk from the first `upto` available ambulances to `target` is longer than `d`. */
  ghost predicate AllAbove(g: Graph, amb: seq<Ambulance>, target: int, upto: int, d: int)
    requires WellFormed(g) && Placed(g, amb) && 0 <= upto <= |amb|
  {
    forall i, p :: 0 <= i < upto && amb[i].available && Follow(g, amb[i].location, p) == Some(target)
      ==> Len(g, amb[i].location, p) > d
  }

  lemma NoneBelowStep(g: Graph, amb: seq<Ambulance>, target: int, i: int, d: int, dist: seq<int>, d': int)
    requires WellFormed(g) && Placed(g, amb) && 0 <= i < |amb| && 0 <= target < |g|
    requires NoneBelow(g, amb, target, i, d) && d' <= d
    requires amb[i].available ==> CappedShortest(g, amb[i].location, Inf, dist) && d' <= dist[target]
    ensures NoneBelow(g, amb, target, i + 1, d')
  {
    if amb[i].available {
      CappedShortestAt(g, amb[i].location, Inf, dist, target);
    }
  }

  lemma AllAboveStep(g: Graph, amb: seq<Ambulance>, target: int, i: int, d: int, d': int)
    requires WellFormed(g) && Placed(g, amb) && 0 <= i <= |amb|
    requires NoneBelow(g, amb, target, i, d) && d' < d
    ensures AllAbove(g, amb, target, i, d')
  {
  }

  /**
   * The dispatch loop of `main`: the available ambulance with the shortest
   * distance to `target` below `INF`, the first listed on a tie, or -1 when
   * no available ambulance reaches it below `INF`.
   */
  method DispatchNearest(g: Graph, amb: seq<Ambulance>, target: int) returns (best: int, bestDist: int)
    requires WellFormed(g) && NonNegative(g) && Placed(g, amb) && 0 <= target < |g|
    ensures -1 <= best < |amb| && bestDist <= Inf
    ensures best == -1 <==> NoneBelow(g, amb, target, |amb|, Inf)
    ensures best == -1 ==> bestDist == Inf
    ensures best != -1 ==> amb[best].available && Reached(g, amb[best].location, target, bestDist)
    ensures NoneBelow(g, amb, target, |amb|, bestDist)
    ensures best != -1 ==> AllAbove(g, amb, target, best, bestDist)
  {
    best, bestDist := -1, Inf;
    var i := 0;
    while i < |amb|
      invariant 0 <= i <= |amb| && -1 <= best < i && bestDist <= Inf
      invariant best == -1 ==> bestDist == Inf
      invariant best != -1 ==> amb[best].available && bestDist < Inf && Reached(g, amb[best].location, target, bestDist)
      invariant NoneBelow(g, amb, target, i, bestDist)
      invariant best != -1 ==> AllAbove(g, amb, target, best, bestDist)
    {
      if !amb[i].available {
        NoneBelowStep(g, amb, target, i, bestDist, [], bestDist);
        i := i + 1;
        continue;
      }
      var dist := HospitalDistances(g, amb[i].location);
      if dist[target] < bestDist {
        NoneBelowStep(g, amb, target, i, bestDist, dist, dist[target]);
        AllAboveStep(g, amb, target, i, bestDist, dist[target]);
        CappedShortestAt(g, amb[i].location, Inf, dist, target);
        bestDist := dist[target];
        best := i;
      } else {
        NoneBelowStep(g, amb, target, i, bestDist, dist, bestDist);
      }
      i := i + 1;
    }
    if best != -1 {
      ghost var p :| Follow(g, amb[best].location, p) == Some(target) && Len(g, amb[best].location, p) == bestDist;
      assert !NoneBelow(g, amb, target, |amb|, Inf);
    }
  }
}

/**
 * The remaining routines of the city resource planner (acase9.cpp): the
 * road network's `dijkstra` (no skip of out-of-date queue entries,
 * `INT_MAX` for unreached zones), the flood-spread order of `bfsFlood`,
 * and `sortEnergy`, which sorts the zones by energy use, largest first.
 * Its union-find is `DisjointSets.UnionFind`, its segment tree
 * `WaterUsage.WaterTree` and its AVL tree `PollutionTree`.
 */
module CityResources {
  import opened Orderings
  import Sorting
  import opened WeightedGraphs
  import Dijkstra
  import Reachability

  datatype Zone = Zone(name: string, water: int, energy: int, waste: int, pollution: int, id: int)

  /** `INT_MAX`, the distance left on zones the search does not reach. */
  const IntMax := 2147483647

  /** `dijkstra(src, n)` over `graphCity`, which has one adjacency list per zone. */
  method CityDistances(g: Graph, src: int) returns (dist: seq<int>)
    requires WellFormed(g) && NonNegative(g) && 0 <= src < |g|
    ensures CappedShortest(g, src, IntMax, dist) && dist[src] == 0
  {
    dist := Dijkstra.ShortestFrom(g, src, IntMax, Dijkstra.NoSkip, Dijkstra.FromCurrent);
  }

  /**
   * `bfsFlood(start, adj)`: the order in which zones are printed. It starts
   * at `start` and lists every zone reachable from it exactly once and no
   * other. Each later zone was found by the scan of `order[parent[k]]`, the
   * first listed zone that has it as a neighbour, at index `slot[k]`, its
   * first index in that zone's list; the finders come in list order, and
   * zones found by one scan come in order of their slots.
   */
  method FloodOrder(adj: Reachability.Adjacency, start: int)
    returns (order: seq<int>, ghost parent: seq<int>, ghost slot: seq<int>)
    requires Reachability.Closed(adj) && 0 <= start < |adj|
    ensures |order| >= 1 && order[0] == start
    ensures forall k :: 0 <= k < |order| ==> 0 <= order[k] < |adj|
    ensures forall k, l :: 0 <= k < l < |order| ==> order[k] != order[l]
    ensures forall v :: v in order <==> Reachability.Reachable(adj, start, v)
    ensures forall k :: 0 < k < |order| ==> exists j :: 0 <= j < k && order[k] in adj[order[j]]
    ensures |parent| == |order| && |slot| == |order|
    ensures forall k :: 0 < k < |order| ==> 0 <= parent[k] < k && order[k] in adj[order[parent[k]]]
    ensures forall k, j, m :: 0 < k < |order| && 0 <= j < parent[k] && 0 <= m < |adj[order[j]]| ==>
              adj[order[j]][m] != order[k]
    ensures forall k, l :: 0 < k < l < |order| ==> parent[k] <= parent[l]
    ensures forall k :: 0 < k < |order| ==>
              0 <= slot[k] < |adj[order[parent[k]]]| && adj[order[parent[k]]][slot[k]] == order[k] &&
              forall m :: 0 <= m < slot[k] ==> adj[order[parent[k]]][m] != order[k]
    ensures forall k, l :: 0 < k < l < |order| && parent[k] == parent[l] ==> slot[k] < slot[l]
  {
    order, parent, slot := Reachability.Traverse(adj, start);
    forall k | 0 < k < |order| ensures exists j :: 0 <= j < k && order[k] in adj[order[j]] {
      var j := parent[k];
      assert 0 <= j < k && order[k] in adj[order[j]];
    }
  }

  /** The comparator of `sortEnergy`. */
  predicate MoreEnergy(a: Zone, b: Zone)
  {
    a.energy > b.energy
  }

  lemma MoreEnergyOrder()
    ensures StrictWeakOrder(MoreEnergy)
  {
  }

  /** `sortEnergy()`: the same zones, in non-increasing order of energy use. */
  method SortEnergy(zones: array<Zone>)
    modifies zones
    ensures forall i, j :: 0 <= i < j < zones.Length ==> zones[i].energy >= zones[j].energy
    ensures multiset(zones[..]) == old(multiset(zones[..]))
  {
    MoreEnergyOrder();
    Sorting.SortArray(zones, MoreEnergy);
    assert SortedBy(zones[..], MoreEnergy);
    forall i, j | 0 <= i < j < zones.Length ensures zones[i].energy >= zones[j].energy {
      assert !MoreEnergy(zones[..][j], zones[..][i]);
    }
  }
}

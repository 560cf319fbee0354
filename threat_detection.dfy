/**
 * The cybersecurity threat detector (acase6.cpp): a hash table of failed
 * login attempts per IP address, a max-heap of `(attempts, ip)` pairs
 * filled from that table, and a breadth-first search for lateral movement
 * through the network. Its KMP routines are `StringMatching.BuildLps` and
 * `StringMatching.KmpSearch`.
 */
module ThreatDetection {
  import opened Wrappers
  import opened Orderings
  import PriorityQueues
  import Reachability

  type Entry = (int, string)

  /** `std::pair`'s `operator<` on `(attempts, ip)`. */
  predicate EntryLess(a: Entry, b: Entry)
  {
    a.0 < b.0 || (a.0 == b.0 && StringLess(a.1, b.1))
  }

  lemma EntryLessOrder()
    ensures StrictWeakOrder(EntryLess)
  {
    StringLessOrder();
  }

  /** The pairs `(count, ip)` of the table entries whose ip is in `ips`. */
  ghost function EntriesOf(attempts: map<string, int>, ips: set<string>): set<Entry>
  {
    set ip | ip in ips && ip in attempts :: (attempts[ip], ip)
  }

  lemma EntriesOfAdd(attempts: map<string, int>, ips: set<string>, ip: string)
    requires ip in attempts && ip !in ips
    ensures (attempts[ip], ip) !in EntriesOf(attempts, ips)
    ensures multiset(EntriesOf(attempts, ips + {ip})) == multiset(EntriesOf(attempts, ips)) + multiset{(attempts[ip], ip)}
  {
    assert EntriesOf(attempts, ips + {ip}) == EntriesOf(attempts, ips) + {(attempts[ip], ip)};
  }

  class ThreatMonitor {
    /** `failedAttempts`. */
    var failedAttempts: map<string, int>
    /** The entries of the global `pq`, in the order they were pushed. */
    var pq: seq<Entry>

    constructor()
      ensures failedAttempts == map[] && pq == []
    {
      failedAttempts := map[];
      pq := [];
    }

    /**
     * `trackLogin(ip, success)`: a failure adds one to the ip's count, a
     * missing ip starting from zero; a success changes nothing and resets
     * nothing.
     */
    method TrackLogin(ip: string, success: bool)
      modifies this
      ensures success ==> failedAttempts == old(failedAttempts)
      ensures !success ==>
        failedAttempts == old(failedAttempts)[ip := (if ip in old(failedAttempts) then old(failedAttempts)[ip] else 0) + 1]
      ensures pq == old(pq)
    {
      if !success {
        var count := if ip in failedAttempts then failedAttempts[ip] else 0;
        failedAttempts := failedAttempts[ip := count + 1];
      }
    }

    /**
     * `loadPriorityQueue()`: one `(count, ip)` entry per table entry joins
     * the queue, in the table's unspecified order, on top of whatever the
     * queue held before; a second call pushes every entry again.
     */
    method LoadPriorityQueue()
      modifies this
      ensures failedAttempts == old(failedAttempts)
      ensures multiset(pq) == multiset(old(pq)) + multiset(EntriesOf(failedAttempts, failedAttempts.Keys))
    {
      var attempts, out := failedAttempts, pq;
      var keys := attempts.Keys;
      ghost var pushed: set<string> := {};
      while keys != {}
        invariant failedAttempts == attempts && Loading(attempts, old(pq), keys, pushed, out)
        decreases |keys|
      {
        ghost var some := Pick(keys);
        var ip :| ip in keys;
        ghost var keys1, pushed1, out1 := keys, pushed, out;
        out := out + [(attempts[ip], ip)];
        keys := keys - {ip};
        pushed := pushed + {ip};
        LoadStep(attempts, old(pq), keys1, pushed1, out1, ip, keys, pushed, out);
      }
      assert pushed == attempts.Keys;
      pq := out;
    }

    /**
     * `pq.top()`: the most failed attempts, ties going to the
     * lexicographically largest ip.
     */
    method TopSuspect() returns (count: int, ip: string)
      requires |pq| >= 1
      ensures (count, ip) in pq
      ensures forall e :: e in pq ==> e.0 <= count && (e.0 == count ==> !StringLess(ip, e.1))
    {
      EntryLessOrder();
      var k := PriorityQueues.Top(pq, EntryLess);
      count, ip := pq[k].0, pq[k].1;
      assert PriorityQueues.IsTop(pq, (count, ip), EntryLess);
    }
  }

  /**
   * What the loop of `loadPriorityQueue` keeps: the table's keys are split
   * into those still to push and those pushed, and the queue holds what it
   * held before plus one entry per pushed key.
   */
  ghost predicate Loading(attempts: map<string, int>, before: seq<Entry>, keys: set<string>,
                          pushed: set<string>, out: seq<Entry>)
  {
    && keys + pushed == attempts.Keys && keys !! pushed
    && multiset(out) == multiset(before) + multiset(EntriesOf(attempts, pushed))
  }

  /** Pushing the entry of one more key. */
  lemma LoadStep(attempts: map<string, int>, before: seq<Entry>, keys: set<string>, pushed: set<string>,
                 out: seq<Entry>, ip: string, keys': set<string>, pushed': set<string>, out': seq<Entry>)
    requires Loading(attempts, before, keys, pushed, out) && ip in keys
    requires keys' == keys - {ip} && pushed' == pushed + {ip} && out' == out + [(attempts[ip], ip)]
    ensures Loading(attempts, before, keys', pushed', out')
  {
    EntriesOfAdd(attempts, pushed, ip);
    assert multiset(out') == multiset(out) + multiset{(attempts[ip], ip)};
  }

  /** A table loaded into an empty queue: the top entry is a table entry with the most attempts. */
  lemma LoadedTop(attempts: map<string, int>, pq: seq<Entry>, count: int, ip: string)
    requires multiset(pq) == multiset(EntriesOf(attempts, attempts.Keys))
    requires (count, ip) in pq
    requires forall e :: e in pq ==> e.0 <= count
    ensures ip in attempts && attempts[ip] == count
    ensures forall other :: other in attempts ==> attempts[other] <= count
  {
    assert (count, ip) in multiset(pq);
    forall other | other in attempts ensures attempts[other] <= count {
      assert (attempts[other], other) in multiset(pq);
    }
  }

  /** `detectLateralMovement(start, target)` over the network `graph`. */
  method DetectLateralMovement(graph: Reachability.Adjacency, start: int, target: int) returns (detected: bool)
    requires Reachability.Closed(graph) && 0 <= start < |graph|
    ensures detected <==> Reachability.Reachable(graph, start, target)
    ensures start == target ==> detected
  {
    detected := Reachability.Search(graph, start, target);
  }
}

/**
 * `std::priority_queue` with a comparator `less`, seen from outside: a
 * collection of entries whose `top()` is an entry no other entry beats, and
 * which `pop()`s until empty yields every entry once, best first. Which
 * of several equally good entries comes first is left to the library; the
 * model takes the first such entry.
 */
module PriorityQueues {
  import opened Orderings

  /** No entry of `s` beats `x`. */
  ghost predicate IsTop<T>(s: seq<T>, x: T, less: (T, T) -> bool)
  {
    x in s && forall y :: y in s ==> !less(x, y)
  }

  /** `top()`: an entry of a non-empty queue that no entry beats. */
  method Top<T(!new)>(s: seq<T>, less: (T, T) -> bool) returns (k: int)
    requires |s| >= 1 && StrictWeakOrder(less)
    ensures 0 <= k < |s| && IsTop(s, s[k], less)
  {
    k := 0;
    var j := 1;
    while j < |s|
      invariant 0 <= k < j <= |s|
      invariant forall t :: 0 <= t < j ==> !less(s[k], s[t])
    {
      if less(s[k], s[j]) {
        k := j;
      }
      j := j + 1;
    }
    forall y | y in s ensures !less(s[k], y) {
      var t :| 0 <= t < |s| && s[t] == y;
    }
  }

  /**
   * Popping the queue until it is empty: every entry comes out once, and
   * no entry comes out before one that beats it.
   */
  method Drain<T(!new)>(items: seq<T>, less: (T, T) -> bool) returns (out: seq<T>)
    requires StrictWeakOrder(less)
    ensures multiset(out) == multiset(items)
    ensures forall i, j :: 0 <= i < j < |out| ==> !less(out[i], out[j])
  {
    out := [];
    var rest := items;
    while |rest| > 0
      invariant multiset(out) + multiset(rest) == multiset(items)
      invariant forall i, j :: 0 <= i < j < |out| ==> !less(out[i], out[j])
      invariant forall i, y :: 0 <= i < |out| && y in rest ==> !less(out[i], y)
      decreases |rest|
    {
      var k := Top(rest, less);
      var x := rest[k];
      var rest' := rest[..k] + rest[k + 1..];
      assert rest == rest[..k] + [x] + rest[k + 1..];
      assert forall y :: y in rest' ==> y in rest;
      out := out + [x];
      rest := rest';
    }
  }
}

/** Optional values, used for lookups that may miss, and a witness for a non-empty set. */
module Wrappers {
  datatype Option<T> = None | Some(value: T)

  /** Some member of a non-empty set; a witness for `var x :| x in s` in compiled code. */
  lemma Pick<T>(s: set<T>) returns (x: T)
    requires s != {}
    ensures x in s
  {
    if forall y :: y !in s {
      assert false;
    }
    x :| x in s;
  }
}

/** Small vocabulary shared by the other modules. */
module Basics {
  /** A value that may be absent. */
  datatype Option<T> = None | Some(value: T)

  /** No value occurs twice. */
  predicate Distinct(s: seq<nat>) {
    forall p, q :: 0 <= p < q < |s| ==> s[p] != s[q]
  }

  /** The first value of a duplicate-free sequence does not recur, and the rest stays duplicate-free. */
  lemma DistinctTail(s: seq<nat>)
    requires Distinct(s) && |s| > 0
    ensures s[0] !in s[1..] && Distinct(s[1..])
  {
    forall k | 0 <= k < |s[1..]| ensures s[1..][k] != s[0] {
      assert s[1..][k] == s[k + 1];
    }
  }
}

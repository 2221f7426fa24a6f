/** Resolving entries in parallel and collecting the results as they complete. */
module Parallel {
  import opened Prelude

  /** The futures of all entries, each once, in the order in which they complete. */
  ghost predicate IsCompletionOrder(order: seq<nat>, count: nat) {
    && (forall k :: 0 <= k < |order| ==> order[k] < count)
    && (forall i :: 0 <= i < count ==> i in order)
    && (forall j, k :: 0 <= j < k < |order| ==> order[j] != order[k])
  }

  /** Whatever the order of completion, the call succeeds exactly if every entry resolves, and then
      the dictionary is the resolver tabulated on the entries; otherwise it raises some entry's error. */
  method ResolveInParallel<K, V, E>(entries: seq<K>, resolver: K -> Result<V, E>, order: seq<nat>)
    returns (result: Result<map<K, V>, E>)
    requires IsCompletionOrder(order, |entries|)
    ensures result.Success? <==> forall k :: k in entries ==> resolver(k).Success?
    ensures result.Success? ==>
              result.value.Keys == (set k | k in entries) &&
              forall k :: k in entries ==> resolver(k) == Success(result.value[k])
    ensures result.Failure? ==> exists k :: k in entries && resolver(k) == Failure(result.error)
  {
    var resolved: map<K, V> := map[];
    for n := 0 to |order|
      invariant forall j :: 0 <= j < n ==> entries[order[j]] in resolved
      invariant forall k :: k in resolved ==> k in entries && resolver(k) == Success(resolved[k])
    {
      var entry := entries[order[n]];
      var value := resolver(entry);
      if value.Failure? {
        return Failure(value.error);
      }
      resolved := resolved[entry := value.value];
    }
    forall k | k in entries ensures k in resolved {
      var i :| 0 <= i < |entries| && entries[i] == k;
      assert i in order;
    }
    result := Success(resolved);
  }
}

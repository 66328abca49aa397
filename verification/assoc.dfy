/**
 * A `HashMap` filled by `put` calls in order, where some steps put nothing:
 * the map the request handler builds for headers and for form parameters.
 */
module Assoc {
  import opened Wrappers

  /** Entry `e` puts key `k`. */
  predicate Puts<K(==), V>(e: Option<(K, V)>, k: K) {
    e.Some? && e.value.0 == k
  }

  /** The map after `put(k, v)` for every `Some((k, v))` of `entries`, in order. */
  function Collect<K(==), V>(entries: seq<Option<(K, V)>>): map<K, V>
  {
    if entries == [] then map[]
    else
      var m := Collect(entries[..|entries| - 1]);
      match entries[|entries| - 1]
      case None => m
      case Some(kv) => m[kv.0 := kv.1]
  }

  /** Entry `i` puts `k` with value `v`, and no later entry puts `k`. */
  predicate LastPut<K(==), V(==)>(entries: seq<Option<(K, V)>>, i: int, k: K, v: V) {
    && 0 <= i < |entries|
    && entries[i] == Some((k, v))
    && forall j :: i < j < |entries| ==> !Puts(entries[j], k)
  }

  /** Last write wins: `k` maps to `v` exactly when the last entry that puts `k` puts `v`. */
  lemma {:induction false} CollectLookup<K, V>(entries: seq<Option<(K, V)>>, k: K, v: V)
    ensures (k in Collect(entries) && Collect(entries)[k] == v)
        <==> exists i :: LastPut(entries, i, k, v)
    decreases |entries|
  {
    if entries != [] {
      var n := |entries| - 1;
      var init := entries[..n];
      CollectLookup(init, k, v);
      if Puts(entries[n], k) {
        if exists i :: LastPut(entries, i, k, v) {
          var i :| LastPut(entries, i, k, v);
          assert i == n;
        }
        if k in Collect(entries) && Collect(entries)[k] == v {
          assert LastPut(entries, n, k, v);
        }
      } else {
        assert Collect(entries) == Collect(init) || (entries[n].Some? && Collect(entries) == Collect(init)[entries[n].value.0 := entries[n].value.1]);
        if exists i :: LastPut(entries, i, k, v) {
          var i :| LastPut(entries, i, k, v);
          assert i < n;
          assert LastPut(init, i, k, v);
        }
        if exists i :: LastPut(init, i, k, v) {
          var i :| LastPut(init, i, k, v);
          assert LastPut(entries, i, k, v);
        }
      }
    }
  }

  /** The keys of the map are exactly the keys some entry puts. */
  lemma {:induction false} CollectKeys<K, V>(entries: seq<Option<(K, V)>>, k: K)
    ensures k in Collect(entries) <==> exists i :: 0 <= i < |entries| && Puts(entries[i], k)
    decreases |entries|
  {
    if entries != [] {
      var n := |entries| - 1;
      var init := entries[..n];
      CollectKeys(init, k);
      if exists i :: 0 <= i < |entries| && Puts(entries[i], k) {
        var i :| 0 <= i < |entries| && Puts(entries[i], k);
        if i < n { assert Puts(init[i], k); }
      }
      if exists i :: 0 <= i < |init| && Puts(init[i], k) {
        var i :| 0 <= i < |init| && Puts(init[i], k);
        assert Puts(entries[i], k);
      }
    }
  }

  /** Appending a step that puts nothing leaves the map unchanged; appending a put updates it. */
  lemma CollectSnoc<K, V>(entries: seq<Option<(K, V)>>, e: Option<(K, V)>)
    ensures Collect(entries + [e]) == if e.None? then Collect(entries) else Collect(entries)[e.value.0 := e.value.1]
  {
    assert (entries + [e])[..|entries|] == entries;
  }
}

/** The hash map over the chained table: it grows by doubling, so that its load never stays above the threshold. */
module HashMap {
  import opened Common
  import opened BitMask
  import opened Metrics
  import opened KVStore

  const LOAD_FACTOR_THRESHOLD := Ratio(3, 4)
  const MAX_CAPACITY := 0x4000_0000  // doubling it overflows a 32-bit int

  class ChronCacheHashMap<K(==, !new), V> {
    const kvStore: KVStore<K, V>

    /** The table is valid and not overloaded. */
    ghost predicate Valid()
      reads this, kvStore, kvStore.Repr()
    {
      && kvStore.Valid()
      && kvStore.loadFactorThreshold == LOAD_FACTOR_THRESHOLD
      && 4 * |kvStore.index| <= 3 * kvStore.capacity
    }

    /** One more entry does not call for a capacity beyond a 32-bit int. */
    ghost predicate CanGrow()
      reads kvStore
    {
      kvStore.capacity < MAX_CAPACITY || 4 * (|kvStore.index| + 1) <= 3 * kvStore.capacity
    }

    constructor (hash: K -> nat, defaultValue: V, capacity: nat)
      requires PassesPow2Test(capacity)
      ensures Valid() && fresh(kvStore.Repr())
      ensures kvStore.Contents == map[] && kvStore.capacity == capacity && kvStore.hash == hash
      ensures kvStore.defaultValue == defaultValue
    {
      kvStore := new KVStore(hash, defaultValue, capacity, LOAD_FACTOR_THRESHOLD);
    }

    /**
     * Doubles the capacity if the load exceeds the threshold. That brings the load down again unless
     * it was already above twice the threshold.
     */
    method MaybeResize()
      requires kvStore.Valid() && kvStore.loadFactorThreshold == LOAD_FACTOR_THRESHOLD
      requires 4 * |kvStore.index| > 3 * kvStore.capacity ==> kvStore.capacity < MAX_CAPACITY
      modifies kvStore.Repr()
      ensures kvStore.Valid() && kvStore.OnlyGrows()
      ensures Valid() <==> 4 * |kvStore.index| <= old(6 * kvStore.capacity)
      ensures kvStore.index == old(kvStore.index) && kvStore.Contents == old(kvStore.Contents)
      ensures kvStore.capacity == old(if 4 * |kvStore.index| > 3 * kvStore.capacity
                                      then 2 * kvStore.capacity else kvStore.capacity)
    {
      kvStore.NeedsResizeIsExact();
      if kvStore.NeedsResize() {
        DoubleIsPow2(kvStore.capacity);
        var r := kvStore.Resize(kvStore.capacity * 2);
        assert r.Done?;
      }
    }

    method Set(key: K, value: V) returns (ok: bool)
      requires Valid() && CanGrow()
      modifies kvStore.Repr()
      ensures Valid() && kvStore.OnlyGrows() && ok
      ensures kvStore.Contents == old(kvStore.Contents)[key := value]
      ensures forall k :: k in old(kvStore.index) ==> k in kvStore.index && kvStore.index[k] == old(kvStore.index[k])
    {
      ok := kvStore.Set(key, value);
      kvStore.NeedsResizeIsExact();
      if kvStore.NeedsResize() {
        MaybeResize();
      }
    }

    method Get(key: K) returns (value: Option<V>)
      requires Valid()
      ensures value == if key in kvStore.Contents then Some(kvStore.Contents[key]) else None
    {
      value := kvStore.Get(key);
    }

    method GetPtr(key: K) returns (node: Node?<K, V>)
      requires Valid()
      ensures node == if key in kvStore.index then kvStore.index[key] else null
    {
      node := kvStore.GetPtr(key);
    }

    /** The slot handed out is still the key's slot after the growth this very call may trigger. */
    method GetOrAdd(key: K) returns (node: Node<K, V>)
      requires Valid() && CanGrow()
      modifies kvStore.Repr()
      ensures Valid() && kvStore.OnlyGrows()
      ensures kvStore.Contents == if key in old(kvStore.Contents) then old(kvStore.Contents)
                                  else old(kvStore.Contents)[key := kvStore.defaultValue]
      ensures key in kvStore.index && kvStore.index[key] == node && node.value == kvStore.Contents[key]
      ensures forall k :: k in old(kvStore.index) ==> k in kvStore.index && kvStore.index[k] == old(kvStore.index[k])
    {
      node := kvStore.GetOrAdd(key);
      kvStore.NeedsResizeIsExact();
      if kvStore.NeedsResize() {
        MaybeResize();
      }
    }

    method Remove(key: K) returns (found: bool)
      requires Valid()
      modifies kvStore.Repr()
      ensures Valid() && kvStore.Repr() == old(kvStore.Repr())
      ensures found <==> key in old(kvStore.Contents)
      ensures kvStore.Contents == old(kvStore.Contents) - {key}
    {
      found := kvStore.Remove(key);
    }

    /**
     * `process_and_remove_if`: the callback may rewrite a stored value, and says whether to remove it.
     * A missing key is not touched.
     */
    method ProcessAndRemoveIf(key: K, process: V -> (V, bool)) returns (seen: Option<V>)
      requires Valid()
      modifies kvStore.Repr()
      ensures Valid() && kvStore.Repr() == old(kvStore.Repr())
      ensures seen == old(if key in kvStore.Contents then Some(kvStore.Contents[key]) else None)
      ensures kvStore.Contents == match seen
                                  case None => old(kvStore.Contents)
                                  case Some(v) =>
                                    if process(v).1 then old(kvStore.Contents) - {key}
                                    else old(kvStore.Contents)[key := process(v).0]
    {
      var node := kvStore.GetPtr(key);
      if node == null {
        return None;
      }
      seen := Some(node.value);
      var (value, remove) := process(node.value);
      RewriteOrRemove(node, value, remove);
    }

    /** What the callback did to the value it was shown, and then what it asked for. */
    method RewriteOrRemove(node: Node<K, V>, value: V, remove: bool)
      requires Valid() && node.key in kvStore.index && kvStore.index[node.key] == node
      modifies kvStore.Repr()
      ensures Valid() && kvStore.Repr() == old(kvStore.Repr())
      ensures kvStore.Contents == if remove then old(kvStore.Contents) - {node.key}
                                  else old(kvStore.Contents)[node.key := value]
    {
      ghost var before := kvStore.Contents;
      Overwrite(node, value);
      if remove {
        var found := Remove(node.key);
        assert kvStore.Contents == before[node.key := value] - {node.key} == before - {node.key};
      }
    }

    method Overwrite(node: Node<K, V>, value: V)
      requires Valid() && node.key in kvStore.index && kvStore.index[node.key] == node
      modifies kvStore.Repr()
      ensures Valid() && kvStore.Repr() == old(kvStore.Repr())
      ensures kvStore.Contents == old(kvStore.Contents)[node.key := value]
    {
      kvStore.SetValue(node, value);
    }

    /** A public resize; on an exception nothing changes. */
    method Resize(newCapacity: int) returns (r: Outcome)
      requires Valid()
      modifies kvStore.Repr()
      ensures Valid() && kvStore.OnlyGrows()
      ensures r.Done? <==> newCapacity > old(kvStore.capacity) && IsPow2(newCapacity)
      ensures kvStore.capacity == if r.Done? then newCapacity else old(kvStore.capacity)
      ensures kvStore.index == old(kvStore.index) && kvStore.Contents == old(kvStore.Contents)
    {
      r := kvStore.Resize(newCapacity);
    }
  }

  /**
   * Two insertions that both get in before the growth they call for, as two threads can: the table of one
   * bucket then holds two entries, and one doubling leaves it overloaded.
   */
  method TwoInsertionsBeforeGrowth(hash: string -> nat) returns (table: ChronCacheHashMap<string, int>)
    ensures table.kvStore.Valid()
    ensures table.kvStore.Contents == map["a" := 1, "b" := 2] && table.kvStore.capacity == 2
    ensures !table.Valid()
  {
    Pow2TestIsExact(1);
    assert Pow2(0) == 1;
    table := new ChronCacheHashMap(hash, 0, 1);
    InsertTwo(table.kvStore);
    table.MaybeResize();
  }

  method InsertTwo(store: KVStore<string, int>)
    requires store.Valid() && store.Contents == map[]
    modifies store.Repr()
    ensures store.Valid() && store.OnlyGrows() && store.capacity == old(store.capacity)
    ensures store.Contents == map["a" := 1, "b" := 2] && |store.index| == 2
  {
    var first := store.Set("a", 1);
    var second := store.Set("b", 2);
    OneEntryPerKey(store);
    assert store.Contents.Keys == {"a", "b"};
  }

  lemma OneEntryPerKey<K(!new), V>(store: KVStore<K, V>)
    requires store.Valid()
    ensures |store.index| == |store.Contents.Keys|
  {
    assert store.index.Keys == store.Contents.Keys;
  }
}

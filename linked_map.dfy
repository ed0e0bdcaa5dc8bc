/**
 * Kotlin's `mutableMapOf()` with `Int` keys: a hash map that iterates in insertion order
 * (a `LinkedHashMap`). Re-putting an existing key keeps its place; a new key goes last.
 */
module LinkedMaps {
  import opened Sequences

  datatype LinkedMap<V> = LinkedMap(keys: seq<int>, entries: map<int, V>) {

    /** `keys` lists every key of `entries` exactly once, oldest first. */
    ghost predicate Valid() {
      && Distinct(keys)
      && (forall i :: 0 <= i < |keys| ==> keys[i] in entries)
      && (forall k :: k in entries ==> k in keys)
    }

    /** `map[k] = v`. */
    function Put(k: int, v: V): (r: LinkedMap<V>)
      requires Valid()
      ensures r.Valid()
    {
      if k in entries then LinkedMap(keys, entries[k := v])
      else LinkedMap(keys + [k], entries[k := v])
    }

    /** Removes every key in `ks`; the remaining keys keep their relative order. */
    function RemoveKeys(ks: set<int>): (r: LinkedMap<V>)
      requires Valid()
      ensures r.Valid()
    {
      LinkedMap(Without(keys, ks), entries - ks)
    }

    /** `map.remove(k)`. */
    function Remove(k: int): (r: LinkedMap<V>)
      requires Valid()
      ensures r.Valid()
    {
      RemoveKeys({k})
    }

    /**
     * `map.values`, in iteration order: every stored value occurs. The first two clauses only
     * spell out the key-order listing for callers.
     */
    function Values(): (vs: seq<V>)
      requires Valid()
      ensures |vs| == |keys|
      ensures forall i :: 0 <= i < |keys| ==> vs[i] == entries[keys[i]]
      ensures forall k :: k in entries ==> entries[k] in vs
    {
      var vs := seq(|keys|, i requires 0 <= i < |keys| => entries[keys[i]]);
      assert forall k :: k in entries ==> entries[k] in vs by {
        forall k | k in entries ensures entries[k] in vs {
          var i :| 0 <= i < |keys| && keys[i] == k;
          assert vs[i] == entries[k];
        }
      }
      vs
    }

    /** Each entry is visited exactly once: the map holds as many entries as it lists keys. */
    lemma SizeIsKeyCount()
      requires Valid()
      ensures |entries| == |keys|
    {
      forall x | x in keys ensures x in entries {
        var i :| 0 <= i < |keys| && keys[i] == x;
      }
      var ks := set x | x in keys;
      forall x | x in entries ensures x in ks {
        assert x in keys;
      }
      assert entries.Keys == ks;
      DistinctCardinality(keys);
    }
  }

  /** `mutableMapOf()` and `map.clear()`. */
  function Empty<V>(): (m: LinkedMap<V>)
    ensures m.Valid() && m.Values() == []
  {
    LinkedMap([], map[])
  }

  /** Putting the same key twice leaves the second value in the first one's place. */
  lemma PutTwice<V>(m: LinkedMap<V>, k: int, a: V, b: V)
    requires m.Valid()
    ensures m.Put(k, a).Put(k, b) == m.Put(k, b)
  {
    assert m.entries[k := a][k := b] == m.entries[k := b];
  }

  /** Two rounds of removals are one round removing both key sets. */
  lemma RemoveKeysTwice<V>(m: LinkedMap<V>, a: set<int>, b: set<int>)
    requires m.Valid()
    ensures m.RemoveKeys(a).RemoveKeys(b) == m.RemoveKeys(a + b)
  {
    WithoutTwice(m.keys, a, b);
    assert m.entries - a - b == m.entries - (a + b);
  }
}

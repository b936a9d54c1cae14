/** A least-recently-used cache: a key-to-value map together with a list of
    its keys ordered from the most to the least recently used, bounded by a
    capacity. When a new key would overflow the capacity, the key at the end
    of the list is evicted from both. */
module LruCache {
  import opened Wrappers
  import opened Seqs

  /** The capacity of a cache built without one. */
  const DefaultCapacity := 10

  /** The abstract state of a cache: its `map`, its `list` of keys (most
      recently used first) and its capacity. */
  datatype Cache<K, V> = Cache(entries: map<K, V>, order: seq<K>, capacity: int)

  /** The cache invariant: every key is listed exactly once, the listed keys
      are the keys of the map, and no more than `capacity` keys are held. */
  ghost predicate Inv<K, V>(c: Cache<K, V>)
  {
    && c.capacity >= 1
    && NoDup(c.order)
    && Elems(c.order) == c.entries.Keys
    && |c.order| <= c.capacity
  }

  /** `put(key, value)`: drops an earlier occurrence of `key` from the list,
      evicts the last listed key when one more key would overflow the
      capacity, then puts `key` at the front and maps it to `value`. */
  function PutSpec<K, V>(c: Cache<K, V>, key: K, value: V): (r: Cache<K, V>)
    requires c.capacity >= 1
    ensures r.capacity == c.capacity && (|c.order| <= c.capacity ==> |r.order| <= c.capacity)
    ensures |r.order| > 0 && r.order[0] == key && key in r.entries && r.entries[key] == value
  {
    var kept := if key in c.entries then RemoveFirstOccurrence(c.order, key) else c.order;
    var trimmed := if |kept| + 1 > c.capacity then kept[..|kept| - 1] else kept;
    var entries := if |kept| + 1 > c.capacity then c.entries - {kept[|kept| - 1]} else c.entries;
    Cache(entries[key := value], [key] + trimmed, c.capacity)
  }

  /** `get(key)`: for a cached key, moves it to the front of the list and
      returns its value; otherwise returns `null` and changes nothing. */
  function GetSpec<K, V>(c: Cache<K, V>, key: K): (r: (Cache<K, V>, Option<V>))
    ensures r.1.Some? <==> key in c.entries
    ensures r.1.Some? ==> r.1.value == c.entries[key] && |r.0.order| > 0 && r.0.order[0] == key
    ensures r.0.entries == c.entries && r.0.capacity == c.capacity
  {
    if key in c.entries then
      (Cache(c.entries, [key] + RemoveFirstOccurrence(c.order, key), c.capacity), Some(c.entries[key]))
    else
      (c, None)
  }

  /** Putting the front key of a list in front of the rest of a
      duplicate-free list without it keeps it duplicate-free. */
  lemma NoDupCons<K>(key: K, s: seq<K>)
    requires NoDup(s) && key !in s
    ensures NoDup([key] + s) && Elems([key] + s) == {key} + Elems(s)
  {
    var r := [key] + s;
    forall i, j | 0 <= i < j < |r| ensures r[i] != r[j] {
      assert r[j] == s[j - 1];
      if i > 0 {
        assert r[i] == s[i - 1];
      }
    }
  }

  /** `put` keeps the invariant. */
  lemma PutKeepsInv<K, V>(c: Cache<K, V>, key: K, value: V)
    requires Inv(c)
    ensures Inv(PutSpec(c, key, value))
  {
    var kept := if key in c.entries then RemoveFirstOccurrence(c.order, key) else c.order;
    if key in c.entries {
      NoDupRemoveFirstOccurrence(c.order, key);
    }
    assert NoDup(kept) && Elems(kept) == c.entries.Keys - {key};
    var r := PutSpec(c, key, value);
    if |kept| + 1 > c.capacity {
      NoDupDropLast(kept);
      NoDupCons(key, kept[..|kept| - 1]);
    } else {
      NoDupCons(key, kept);
    }
  }

  /** `get` keeps the invariant. */
  lemma GetKeepsInv<K, V>(c: Cache<K, V>, key: K)
    requires Inv(c)
    ensures Inv(GetSpec(c, key).0)
  {
    if key in c.entries {
      NoDupRemoveFirstOccurrence(c.order, key);
      NoDupCons(key, RemoveFirstOccurrence(c.order, key));
      RemoveFirstOccurrenceCounts(c.order, key);
    }
  }

  /** A `get` right after `put(key, value)` finds `value`, and `key` is the
      most recently used key. */
  lemma GetAfterPut<K, V>(c: Cache<K, V>, key: K, value: V)
    requires c.capacity >= 1
    ensures GetSpec(PutSpec(c, key, value), key).1 == Some(value)
    ensures PutSpec(c, key, value).order[0] == key
    ensures GetSpec(PutSpec(c, key, value), key).0.order[0] == key
  {
  }

  /** `put` of a new key into a full cache evicts exactly the least
      recently used key, the last one listed, and keeps every other key with
      its value. */
  lemma PutEvictsLeastRecent<K, V>(c: Cache<K, V>, key: K, value: V)
    requires Inv(c) && key !in c.entries && |c.order| == c.capacity
    ensures var r := PutSpec(c, key, value);
      && var lru := c.order[|c.order| - 1];
      && r.order == [key] + c.order[..|c.order| - 1]
      && lru !in r.entries
      && r.entries.Keys == c.entries.Keys - {lru} + {key}
      && (forall k | k in c.entries && k != lru :: k in r.entries && r.entries[k] == c.entries[k])
      && |r.order| == |c.order|
  {
    assert key !in c.order;
    NoDupDropLast(c.order);
  }

  /** `put` of a new key into a cache that is not full evicts nothing. */
  lemma PutIntoRoom<K, V>(c: Cache<K, V>, key: K, value: V)
    requires Inv(c) && key !in c.entries && |c.order| < c.capacity
    ensures PutSpec(c, key, value).order == [key] + c.order
    ensures PutSpec(c, key, value).entries == c.entries[key := value]
  {
    assert key !in c.order;
  }

  /** `put` of a key already cached evicts nothing: the same keys stay,
      their number does not change, the other keys keep their order and
      values, and the value of `key` is overwritten. */
  lemma PutExisting<K, V>(c: Cache<K, V>, key: K, value: V)
    requires Inv(c) && key in c.entries
    ensures var r := PutSpec(c, key, value);
      && r.order == [key] + RemoveFirstOccurrence(c.order, key)
      && r.entries == c.entries[key := value]
      && r.entries.Keys == c.entries.Keys
      && |r.order| == |c.order|
  {
    assert key in c.order;
    RemoveFirstOccurrenceCounts(c.order, key);
  }

  /** `get` of an absent key returns `null` and leaves the cache as it
      was. */
  lemma GetAbsent<K, V>(c: Cache<K, V>, key: K)
    requires key !in c.entries
    ensures GetSpec(c, key) == (c, None)
  {
  }

  /** `get` of a cached key returns its value and makes it the most recently
      used key, leaving the keys, their number and all values as they were. */
  lemma GetPresent<K, V>(c: Cache<K, V>, key: K)
    requires Inv(c) && key in c.entries
    ensures var (r, v) := GetSpec(c, key);
      && v == Some(c.entries[key])
      && r.order == [key] + RemoveFirstOccurrence(c.order, key)
      && r.entries == c.entries
      && Elems(r.order) == Elems(c.order)
      && |r.order| == |c.order|
  {
    GetKeepsInv(c, key);
    RemoveFirstOccurrenceCounts(c.order, key);
  }

  /** In a cache that keeps its invariant the `map` and the `list` have the
      same size, so the capacity bounds both. */
  lemma SizesAgree<K, V>(c: Cache<K, V>)
    requires Inv(c)
    ensures |c.entries| == |c.order| <= c.capacity
  {
    NoDupCard(c.order);
    assert c.entries.Keys == Elems(c.order);
  }

  /** The cache object: its `map` (here `entries`), the list of keys (a
      `java.util.LinkedList` there, a sequence here) and the capacity. */
  class LRUCache<K(==), V> {
    var entries: map<K, V>  // the `map` field
    var list: seq<K>
    var capacity: int

    /** The abstract state the fields stand for. */
    function State(): Cache<K, V>
      reads this
    {
      Cache(entries, list, capacity)
    }

    ghost predicate Valid()
      reads this
    {
      Inv(State())
    }

    /** `LRUCache()`: an empty cache holding at most ten keys. */
    constructor ()
      ensures Valid() && entries == map[] && list == [] && capacity == DefaultCapacity
    {
      entries, list, capacity := map[], [], 10;
    }

    /** `LRUCache(int)`: an empty cache holding at most `capacity` keys. */
    constructor WithCapacity(capacity: int)
      requires capacity >= 1
      ensures Valid() && entries == map[] && list == [] && this.capacity == capacity
    {
      entries, list, this.capacity := map[], [], capacity;
    }

    /** `put(key, value)`. */
    method Put(key: K, value: V)
      requires Valid()
      modifies this
      ensures Valid() && State() == PutSpec(old(State()), key, value)
    {
      ghost var c := State();
      if key in entries {
        list := Seqs.RemoveFirstOccurrence(list, key);  // list.remove(key)
      }
      if |list| + 1 > capacity {
        var last := list[|list| - 1];  // list.remove(list.size() - 1)
        list := list[..|list| - 1];
        entries := entries - {last};  // map.remove(...)
      }
      list := [key] + list;  // list.add(0, key)
      entries := entries[key := value];  // map.put(key, value)
      PutKeepsInv(c, key, value);
    }

    /** `get(key)`: the value cached for `key`, or `null`. */
    method Get(key: K) returns (r: Option<V>)
      requires Valid()
      modifies this
      ensures Valid() && (State(), r) == GetSpec(old(State()), key)
    {
      GetKeepsInv(State(), key);
      if key in entries {
        list := Seqs.RemoveFirstOccurrence(list, key);  // list.remove(key)
        list := [key] + list;  // list.add(0, key)
        return Some(entries[key]);
      }
      return None;
    }
  }
}

/** The behaviours that the repository's unit tests check, replayed on the
    model: each method builds its own fresh list or cache and promises the
    outcome the test expects. */
module Scenarios {
  import opened Wrappers
  import opened DoubleLinked
  import opened LruCache
  import Seqs

  /** The list `[4, 5, 6]` that every list test starts from. */
  method StandardList() returns (l: DoubleLinkedList<int>)
    ensures fresh(l) && l.Valid() && l.Contents == [4, 5, 6]
    ensures forall i | 0 <= i < |l.Nodes| :: fresh(l.Nodes[i])
  {
    l := new DoubleLinkedList();
    var _ := l.Add(4);
    var _ := l.Add(5);
    var _ := l.Add(6);
  }

  /** Removing from the list behind a cursor's back makes the cursor's next
      step throw. */
  method ConcurrentModificationScenario() returns (r: Result<int>)
    ensures r == Err(ConcurrentModification)
  {
    var l := StandardList();
    var it := l.ListIterator();
    var _ := l.RemoveIndex(1);
    r := it.Next();
  }

  /** Removing an absent payload or splicing in nothing leaves the list as
      it was, so a cursor opened before still steps without throwing. */
  method NoChangeScenario() returns (removed: bool, added: Result<bool>, r: Result<int>)
    ensures !removed && added == Ok(false) && r == Ok(4)
  {
    var l := StandardList();
    var it := l.ListIterator();
    removed := l.RemoveObject(7);
    added := l.AddAllAt(1, []);
    r := it.Next();
  }

  /** A sweep that keeps every payload leaves the cursor in step too. */
  method NoChangeSweepScenario() returns (swept: bool, r: Result<int>)
    ensures !swept && r == Ok(4)
  {
    var l := StandardList();
    var it := l.ListIterator();
    Seqs.FilteredProperties(l.Contents, {9}, false);
    swept := l.RemoveAll({9});
    r := it.Next();
  }

  /** Stepping past the last payload throws. */
  method PastLastScenario() returns (r: Result<int>)
    ensures r == Err(NoSuchElement)
  {
    var l := StandardList();
    var it := l.ListIterator();
    while it.HasNext()
      invariant it.Valid() && !it.Stale() && it.list == l && |l.Contents| == 3 && 0 <= it.index <= 3
      decreases 3 - it.index
    {
      var _ := it.Next();
    }
    r := it.Next();
  }

  /** A cursor's `remove()` after one `next()` unlinks the payload at the
      cursor, the second one. */
  method IteratorRemoveScenario() returns (first: Result<int>, r: Outcome, elems: seq<int>)
    ensures first == Ok(4) && r == Pass && elems == [4, 6]
  {
    var l := StandardList();
    var it := l.ListIterator();
    first := it.Next();
    r := it.Remove();
    elems := l.ToArray();
  }

  /** The descending cursor returns the payloads back to front, and its
      `remove()` unlinks the payload at the cursor, here the one `next()`
      just returned. */
  method DescendingRemoveScenario() returns (a: Result<int>, b: Result<int>, r: Outcome, elems: seq<int>)
    ensures a == Ok(6) && b == Ok(5) && r == Pass && elems == [4, 6]
  {
    var l := StandardList();
    var it := l.DescendingIterator();
    a := it.Next();
    b := it.Next();
    r := it.Remove();
    elems := l.ToArray();
  }

  /** A cursor's `set` after one `next()` replaces the second payload. */
  method IteratorSetScenario() returns (r: Outcome, elems: seq<int>)
    ensures r == Pass && elems == [4, 100, 6]
  {
    var l := StandardList();
    var it := l.ListIterator();
    var _ := it.Next();
    r := it.Set(100);
    elems := l.ToArray();
  }

  /** The list `[4, 5, 6, 7, 8, 9]` of the `subList` tests. */
  method LongerList() returns (l: DoubleLinkedList<int>)
    ensures fresh(l) && l.Valid() && l.Contents == [4, 5, 6, 7, 8, 9]
  {
    l := StandardList();
    var _ := l.Add(7);
    var _ := l.Add(8);
    var _ := l.Add(9);
  }

  /** `subList(1, 3)` includes the payload at `toIndex`; it walks from the
      head. */
  method SubListScenario() returns (elems: seq<int>)
    ensures elems == [5, 6, 7]
  {
    var l := LongerList();
    var s := l.SubList(1, 3);
    elems := s.value.ToArray();
  }

  /** `subList(3, 5)` walks from the tail, with the same inclusive bounds. */
  method SubListTailScenario() returns (elems: seq<int>)
    ensures elems == [7, 8, 9]
  {
    var l := LongerList();
    var s := l.SubList(3, 5);
    elems := s.value.ToArray();
  }

  /** A cache of two evicts the first key when a third arrives. */
  method OverrunCapacityScenario() returns (r: Option<string>)
    ensures r == None
  {
    var cache := new LRUCache.WithCapacity(2);
    cache.Put(1, "A");
    cache.Put(2, "B");
    cache.Put(3, "C");
    r := cache.Get(1);
  }

  /** Reading a key saves it from the next eviction. */
  method RefreshOnGetScenario() returns (a: Option<string>, b: Option<string>)
    ensures a == Some("A") && b == None
  {
    var cache := new LRUCache.WithCapacity(2);
    cache.Put(1, "A");
    cache.Put(2, "B");
    var _ := cache.Get(1);
    cache.Put(3, "C");
    a := cache.Get(1);
    b := cache.Get(2);
  }

  /** Writing a key again saves it from the next eviction and replaces its
      value. */
  method RefreshOnPutScenario() returns (a: Option<string>, b: Option<string>)
    ensures a == Some("D") && b == None
  {
    var cache := new LRUCache.WithCapacity(2);
    cache.Put(1, "A");
    cache.Put(2, "B");
    cache.Put(1, "D");
    cache.Put(3, "C");
    a := cache.Get(1);
    b := cache.Get(2);
  }

  /** A default cache holds ten keys and finds what was put into it. */
  method DefaultCacheScenario() returns (capacity: int, r: Option<string>)
    ensures capacity == 10 && r == Some("Hello")
  {
    var cache := new LRUCache();
    cache.Put(5, "Hello");
    capacity := cache.capacity;
    r := cache.Get(5);
  }
}

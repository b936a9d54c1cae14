# LRUCache — a Dafny model

The repository is a Java least-recently-used cache. It has two parts:

- `LRUCache` holds a `map` from keys to values and a `list` of its keys. The list runs from the most recently used key to the least recently used one. Its length is bounded by a `capacity`, which defaults to 10.
  - `put` moves the key to the front of the list. If one more key would overflow the capacity, it first evicts the last key from both the list and the map.
  - `get` moves a key it finds to the front.
- `DoubleLinkedList` is a hand-written doubly linked list. It implements `java.util.List` and `java.util.Deque`.
  - Its nodes carry `prev`/`next` links and a payload.
  - The list keeps `head`, `tail`, a `nodeCount`, and an `adjustCount`. Every structural change bumps `adjustCount`.
  - Its list iterator `LstIter` and its descending iterator `DescIter` remember the `adjustCount` they were created at. They throw `ConcurrentModificationException` once the list has changed behind their back.

The model has these files:

- `wrappers.dfy`: `Option`, `Result`, `Outcome` and the Java exception kinds that the model returns instead of throwing.
- `seqs.dfy`: sequence functions that say what the list operations mean on the payload sequence: `IndexOf`, `LastIndexOf`, `RemoveAt`, `InsertAt`, the first- and last-occurrence removals, `Filtered`, `Reversed`, and their lemmas.
- `double_linked_list.dfy`: `Node`, `DoubleLinkedList`, `LstIter` and `DescIter` as classes whose methods update fields in place.
  - Each list carries the ghost sequences `Nodes` (its nodes, head first) and `Contents` (their payloads).
  - `Valid()` is the link invariant:
    - `head` and `tail` are the first and last node;
    - each node's `next` is the following node and its `prev` the preceding one;
    - the nodes are distinct and `nodeCount == |Nodes|`.
  - Every method is proved against `Contents`.
- `lru_cache.dfy`: the cache as a class with fields `entries` (the Java `map`), `list` and `capacity`. Its methods are proved equal to the pure functions `PutSpec`/`GetSpec`, and the LRU properties are lemmas about those functions.
- `null_scan.dfy`: the searches of `removeFirstOccurrence`/`removeLastOccurrence` exactly as written, for the finding below.
- `scenarios.dfy`: the outcomes that the unit tests check, stated as postconditions of methods that replay each test on the model.

Java `null` payloads are not modelled separately: payload equality is Dafny's `==`. The source has two comparison loops (one for `null`, one for `equals`) where the model has one. The `equals` loop calls `cur.data.equals(o)`, which throws `NullPointerException` on a `null` payload. So `contains` (lines 47-48), `indexOf` (448-449), `lastIndexOf` (465-466), `remove(Object)` (294), `removeFirstOccurrence` (203) and `removeLastOccurrence` (217) all throw when a non-`null` `o` meets a `null` payload before a match. The model's total equality gives the answer that the `List`/`Deque` contract promises in that case. The throwing searches are modelled as written only for the two occurrence removals, in `null_scan.dfy`.

Paths in the table are relative to the repository root.

## Model

| member | source | states |
|---|---|---|
| LruCache.PutSpec | src/main/java/com/mhendren/LRUCache/LRUCache.java:23-32 | after `put` the key is at the front of the list and maps to the new value; the capacity is unchanged, and a list within the capacity stays within it |
| LruCache.GetSpec | src/main/java/com/mhendren/LRUCache/LRUCache.java:34-41 | `get` finds a value exactly when the key is in the map, and then returns the mapped value and puts the key at the front; the map and capacity never change |
| LruCache.PutKeepsInv | src/main/java/com/mhendren/LRUCache/LRUCache.java:23-32 | `put` preserves the cache invariant: keys listed once each, listed keys == map keys, at most `capacity` of them |
| LruCache.GetKeepsInv | src/main/java/com/mhendren/LRUCache/LRUCache.java:34-41 | `get` preserves the cache invariant |
| LruCache.GetAfterPut | src/main/java/com/mhendren/LRUCache/LRUCache.java:23-41 | a `get` right after `put(key, value)` returns `value`, and the key is at index 0 after both calls |
| LruCache.PutEvictsLeastRecent | src/main/java/com/mhendren/LRUCache/LRUCache.java:27-31 | putting a new key into a full cache evicts exactly the last listed (least recently used) key from list and map; every other entry is kept and the size stays at capacity |
| LruCache.PutIntoRoom | src/main/java/com/mhendren/LRUCache/LRUCache.java:27-31 | putting a new key into a cache with room evicts nothing: the key is prepended and added to the map |
| LruCache.PutExisting | src/main/java/com/mhendren/LRUCache/LRUCache.java:24-31 | putting a key already present evicts nothing: it moves to the front, its value is overwritten, the key set and the size stay the same |
| LruCache.GetAbsent | src/main/java/com/mhendren/LRUCache/LRUCache.java:34-41 | `get` of an absent key returns `null` and changes nothing |
| LruCache.SizesAgree | src/main/java/com/mhendren/LRUCache/LRUCache.java:27-28 | under the cache invariant the map has as many entries as the list has keys, so the eviction test on `list.size()` bounds the map by the capacity too |
| LruCache.GetPresent | src/main/java/com/mhendren/LRUCache/LRUCache.java:35-38 | `get` of a present key returns its value and moves it to the front, keeping the set of keys, the map and the size |
| LruCache.LRUCache.constructor | src/main/java/com/mhendren/LRUCache/LRUCache.java:15-17 | a default cache is empty, valid and has capacity 10 |
| LruCache.LRUCache.WithCapacity | src/main/java/com/mhendren/LRUCache/LRUCache.java:19-21 | a cache built with capacity `n >= 1` is empty, valid and has capacity `n` |
| LruCache.LRUCache.Put | src/main/java/com/mhendren/LRUCache/LRUCache.java:23-32 | the new state is `PutSpec` of the old one, and the invariant is kept |
| LruCache.LRUCache.Get | src/main/java/com/mhendren/LRUCache/LRUCache.java:34-41 | the new state and the result are `GetSpec` of the old state, and the invariant is kept |
| DoubleLinked.Node.constructor | src/main/java/com/mhendren/LRUCache/DoubleLinkedList.java:11-18 | a new node carries its payload and no links |
| DoubleLinked.DoubleLinkedList.constructor | src/main/java/com/mhendren/LRUCache/DoubleLinkedList.java:21-24 | a new list is empty, satisfies the link invariant, and has `adjustCount == 0` |
| DoubleLinked.DoubleLinkedList.TraversalsAgree | src/main/java/com/mhendren/LRUCache/DoubleLinkedList.java:21-24 | under the link invariant, `head`/`tail` are null exactly for the empty list; following `next` from `head` visits the nodes in order; following `prev` from `tail` visits them in reverse; both walks have `nodeCount` nodes |
| DoubleLinked.DoubleLinkedList.WalkForwardFrom | src/main/java/com/mhendren/LRUCache/DoubleLinkedList.java:21-24 | following `next` from the node at `j` visits exactly the nodes from `j` on |
| DoubleLinked.DoubleLinkedList.WalkBackwardFrom | src/main/java/com/mhendren/LRUCache/DoubleLinkedList.java:21-24 | following `prev` from the node before `j` visits exactly the nodes before `j`, in reverse |
| DoubleLinked.DoubleLinkedList.Adjust | src/main/java/com/mhendren/LRUCache/DoubleLinkedList.java:26-28 | `adjust()` bumps `adjustCount` by one and changes neither nodes nor payloads |
| DoubleLinked.DoubleLinkedList.Size | src/main/java/com/mhendren/LRUCache/DoubleLinkedList.java:31-33 | `size()` is the number of payloads |
| DoubleLinked.DoubleLinkedList.IsEmpty | src/main/java/com/mhendren/LRUCache/DoubleLinkedList.java:36-38 | `isEmpty()` holds exactly when there are no payloads |
| DoubleLinked.DoubleLinkedList.Contains | src/main/java/com/mhendren/LRUCache/DoubleLinkedList.java:41-52 | the head-to-tail scan answers true exactly when `o` is a payload |
| DoubleLinked.DoubleLinkedList.ListIterator | src/main/java/com/mhendren/LRUCache/DoubleLinkedList.java:604-606 | `listIterator()` (and `iterator()`, lines 55-57) returns a fresh cursor on this list at position 0, in step with the list's `adjustCount` |
| DoubleLinked.DoubleLinkedList.DescendingIterator | src/main/java/com/mhendren/LRUCache/DoubleLinkedList.java:79-81 | `descendingIterator()` returns a fresh cursor past the last payload, in step with the list |
| DoubleLinked.DoubleLinkedList.ToArray | src/main/java/com/mhendren/LRUCache/DoubleLinkedList.java:84-90 | `toArray()` returns the payloads in order |
| DoubleLinked.DoubleLinkedList.AddFirst | src/main/java/com/mhendren/LRUCache/DoubleLinkedList.java:111-113 | `addFirst(e)` prepends `e` to the payloads, keeps the link invariant, and bumps `adjustCount` |
| DoubleLinked.DoubleLinkedList.AddLast | src/main/java/com/mhendren/LRUCache/DoubleLinkedList.java:116-118 | `addLast(e)` appends `e`, keeps the invariant, and bumps `adjustCount` |
| DoubleLinked.DoubleLinkedList.OfferFirst | src/main/java/com/mhendren/LRUCache/DoubleLinkedList.java:121-124 | `offerFirst(e)` prepends `e` and returns true |
| DoubleLinked.DoubleLinkedList.OfferLast | src/main/java/com/mhendren/LRUCache/DoubleLinkedList.java:127-130 | `offerLast(e)` appends `e` and returns true |
| DoubleLinked.DoubleLinkedList.RemoveFirst | src/main/java/com/mhendren/LRUCache/DoubleLinkedList.java:133-143 | `removeFirst()` returns `null` and changes nothing on an empty list; otherwise it returns the first payload, drops it, and bumps `adjustCount` |
| DoubleLinked.DoubleLinkedList.RemoveLast | src/main/java/com/mhendren/LRUCache/DoubleLinkedList.java:146-156 | `removeLast()` returns `null` and changes nothing on an empty list; otherwise it returns the last payload and drops it |
| DoubleLinked.DoubleLinkedList.PollFirst | src/main/java/com/mhendren/LRUCache/DoubleLinkedList.java:159-164 | `pollFirst()` is `null` on an empty list, otherwise removes and returns the first payload |
| DoubleLinked.DoubleLinkedList.PollLast | src/main/java/com/mhendren/LRUCache/DoubleLinkedList.java:167-172 | `pollLast()` is `null` on an empty list, otherwise removes and returns the last payload |
| DoubleLinked.DoubleLinkedList.GetFirst | src/main/java/com/mhendren/LRUCache/DoubleLinkedList.java:175-180 | `getFirst()` fails with `NoSuchElement` exactly on the empty list, otherwise returns the first payload |
| DoubleLinked.DoubleLinkedList.GetLast | src/main/java/com/mhendren/LRUCache/DoubleLinkedList.java:183-188 | `getLast()` fails with `NoSuchElement` exactly on the empty list, otherwise returns the last payload |
| DoubleLinked.DoubleLinkedList.PeekFirst | src/main/java/com/mhendren/LRUCache/DoubleLinkedList.java:191-193 | `peekFirst()` is `null` exactly on the empty list, otherwise the first payload |
| DoubleLinked.DoubleLinkedList.PeekLast | src/main/java/com/mhendren/LRUCache/DoubleLinkedList.java:196-198 | `peekLast()` is `null` exactly on the empty list, otherwise the last payload |
| DoubleLinked.DoubleLinkedList.FindFirst | src/main/java/com/mhendren/LRUCache/DoubleLinkedList.java:203-204 | the search from the head finds no node exactly when `o` is absent, and otherwise the node at the first index of `o` |
| DoubleLinked.DoubleLinkedList.FindLast | src/main/java/com/mhendren/LRUCache/DoubleLinkedList.java:217-218 | the search from the tail finds no node exactly when `o` is absent, and otherwise the node at the last index of `o` |
| DoubleLinked.DoubleLinkedList.RemoveFirstOccurrence | src/main/java/com/mhendren/LRUCache/DoubleLinkedList.java:201-212 | returns true exactly when `o` was a payload, removes its first occurrence, and bumps `adjustCount` only then; when it returns false nothing changes (corrected version, see Findings) |
| DoubleLinked.DoubleLinkedList.RemoveLastOccurrence | src/main/java/com/mhendren/LRUCache/DoubleLinkedList.java:215-226 | returns true exactly when `o` was a payload, removes its last occurrence, and bumps `adjustCount` only then; when it returns false nothing changes (corrected version, see Findings) |
| DoubleLinked.DoubleLinkedList.Add | src/main/java/com/mhendren/LRUCache/DoubleLinkedList.java:229-239 | `add(o)` appends one fresh node holding `o`, keeps the invariant, bumps `adjustCount`, and returns true |
| DoubleLinked.DoubleLinkedList.Offer | src/main/java/com/mhendren/LRUCache/DoubleLinkedList.java:242-244 | `offer(e)` appends `e` and returns true |
| DoubleLinked.DoubleLinkedList.Remove | src/main/java/com/mhendren/LRUCache/DoubleLinkedList.java:247-249 | `remove()` is `removeFirst()`: `null` on an empty list, otherwise removes and returns the head payload |
| DoubleLinked.DoubleLinkedList.Poll | src/main/java/com/mhendren/LRUCache/DoubleLinkedList.java:252-254 | `poll()` is `null` on an empty list, otherwise removes and returns the head payload |
| DoubleLinked.DoubleLinkedList.Element | src/main/java/com/mhendren/LRUCache/DoubleLinkedList.java:257-259 | `element()` is `null` exactly on the empty list, otherwise the first payload |
| DoubleLinked.DoubleLinkedList.Peek | src/main/java/com/mhendren/LRUCache/DoubleLinkedList.java:262-264 | `peek()` is `null` exactly on the empty list, otherwise the first payload |
| DoubleLinked.DoubleLinkedList.Push | src/main/java/com/mhendren/LRUCache/DoubleLinkedList.java:267-269 | `push(e)` prepends `e` |
| DoubleLinked.DoubleLinkedList.Pop | src/main/java/com/mhendren/LRUCache/DoubleLinkedList.java:272-274 | `pop()` is `null` on an empty list, otherwise removes and returns the first payload |
| DoubleLinked.DoubleLinkedList.RemoveNode | src/main/java/com/mhendren/LRUCache/DoubleLinkedList.java:276-281 | `removeNode(node)` unlinks the node at `k`: nodes and payloads lose position `k`, the invariant is kept, the unlinked node keeps its `next`, and `adjustCount` is bumped |
| DoubleLinked.DoubleLinkedList.Unlink | src/main/java/com/mhendren/LRUCache/DoubleLinkedList.java:277-279 | the relinking of the neighbours of the node at `k` removes position `k` and keeps the invariant |
| DoubleLinked.DoubleLinkedList.RemoveObject | src/main/java/com/mhendren/LRUCache/DoubleLinkedList.java:284-301 | `remove(Object o)` returns true exactly when `o` was a payload and removes its first occurrence; when it returns false nothing changes, so open cursors stay in step |
| DoubleLinked.DoubleLinkedList.NewListFromCollection | src/main/java/com/mhendren/LRUCache/DoubleLinkedList.java:303-320 | `newListFromCollection(c)` builds a chain of fresh, distinct nodes, linked both ways and holding the elements of `c` in order. It returns the chain's first node, or `null` for an empty `c` |
| DoubleLinked.DoubleLinkedList.FindEndOfSubList | src/main/java/com/mhendren/LRUCache/DoubleLinkedList.java:322-328 | following `next` from the first node of a chain ends at its last node, or gives `null` for no chain |
| DoubleLinked.DoubleLinkedList.AddAll | src/main/java/com/mhendren/LRUCache/DoubleLinkedList.java:331-340 | `addAll(c)` appends the elements of `c` in order, returns true exactly when `c` is non-empty, and changes nothing otherwise |
| DoubleLinked.DoubleLinkedList.LinkAtEnd | src/main/java/com/mhendren/LRUCache/DoubleLinkedList.java:334-338 | linking a separately built chain after the tail appends its nodes and payloads and keeps the invariant |
| DoubleLinked.DoubleLinkedList.AddAllAt | src/main/java/com/mhendren/LRUCache/DoubleLinkedList.java:343-357 | `addAll(index, c)` fails with `IndexOutOfBounds` and changes nothing exactly when `index` is outside `0..size`; otherwise it inserts `c` at `index` and returns whether `c` is non-empty, and an empty `c` changes nothing |
| DoubleLinked.DoubleLinkedList.SpliceBefore | src/main/java/com/mhendren/LRUCache/DoubleLinkedList.java:348-355 | linking a separately built chain before the node at `k` puts its nodes and payloads at position `k` and keeps the invariant |
| DoubleLinked.DoubleLinkedList.Clear | src/main/java/com/mhendren/LRUCache/DoubleLinkedList.java:360-365 | `clear()` leaves an empty valid list and bumps `adjustCount` |
| DoubleLinked.DoubleLinkedList.CheckIndex | src/main/java/com/mhendren/LRUCache/DoubleLinkedList.java:367-375 | `checkIndex(index, adjust)` passes exactly when `0 <= index < size + adjust`, and fails with `IndexOutOfBounds` otherwise |
| DoubleLinked.DoubleLinkedList.FindIndex | src/main/java/com/mhendren/LRUCache/DoubleLinkedList.java:377-391 | `findIndex(index)` returns the node at `index`, walking from whichever end is nearer |
| DoubleLinked.DoubleLinkedList.Get | src/main/java/com/mhendren/LRUCache/DoubleLinkedList.java:394-398 | `get(index)` is the payload at `index`, or `IndexOutOfBounds` exactly when `index` is outside `0..size-1` |
| DoubleLinked.DoubleLinkedList.Set | src/main/java/com/mhendren/LRUCache/DoubleLinkedList.java:401-408 | `set(index, e)` returns the old payload at `index` and replaces it by `e`, keeping the nodes; out of range fails with `IndexOutOfBounds` and changes nothing |
| DoubleLinked.DoubleLinkedList.Overwrite | src/main/java/com/mhendren/LRUCache/DoubleLinkedList.java:404-405 | storing a payload in the node at `k` replaces position `k` of the payloads and keeps the invariant |
| DoubleLinked.DoubleLinkedList.AddAt | src/main/java/com/mhendren/LRUCache/DoubleLinkedList.java:411-426 | `add(index, e)` inserts `e` at `index` with one fresh node; out of `0..size` it fails with `IndexOutOfBounds` and changes nothing |
| DoubleLinked.DoubleLinkedList.LinkBefore | src/main/java/com/mhendren/LRUCache/DoubleLinkedList.java:416-424 | linking a fresh node before the node at `k` inserts the payload at `k` and keeps the invariant |
| DoubleLinked.DoubleLinkedList.InsertBefore | src/main/java/com/mhendren/LRUCache/DoubleLinkedList.java:411-426 | inserting before a node, or at the end when there is none, inserts the payload at `k` |
| DoubleLinked.DoubleLinkedList.RemoveIndex | src/main/java/com/mhendren/LRUCache/DoubleLinkedList.java:429-437 | `remove(index)` returns and removes the payload at `index`; out of range it fails with `IndexOutOfBounds` and changes nothing |
| DoubleLinked.DoubleLinkedList.UnlinkAt | src/main/java/com/mhendren/LRUCache/DoubleLinkedList.java:432-435 | unlinking the node at `k` removes payload `k`, keeps the invariant, and bumps `adjustCount` |
| DoubleLinked.DoubleLinkedList.IndexOf | src/main/java/com/mhendren/LRUCache/DoubleLinkedList.java:440-454 | `indexOf(o)` is the first position of `o`, or -1 |
| DoubleLinked.DoubleLinkedList.LastIndexOf | src/main/java/com/mhendren/LRUCache/DoubleLinkedList.java:457-471 | `lastIndexOf(o)` is the last position of `o`, or -1 |
| DoubleLinked.DoubleLinkedList.ListIteratorAt | src/main/java/com/mhendren/LRUCache/DoubleLinkedList.java:610-612 | `listIterator(index)` fails with `IndexOutOfBounds` exactly when `index` is outside `0..size`; otherwise it returns a fresh cursor at `index`, in step with the list |
| DoubleLinked.DoubleLinkedList.SubListFromTail | src/main/java/com/mhendren/LRUCache/DoubleLinkedList.java:614-627 | the walk from the tail that prepends payloads collects exactly positions `size-1-stop .. size-1-start`, in order, into a fresh valid list |
| DoubleLinked.DoubleLinkedList.SubListFromHead | src/main/java/com/mhendren/LRUCache/DoubleLinkedList.java:637-649 | the walk from the head collects exactly positions `fromIndex .. toIndex`, in order, into a fresh valid list |
| DoubleLinked.DoubleLinkedList.SubList | src/main/java/com/mhendren/LRUCache/DoubleLinkedList.java:630-650 | `subList(from, to)` is a fresh list holding positions `from .. to` inclusive. It fails exactly when `0 <= from <= to < size` does not hold: with `IllegalArgument` when both indices are in range, otherwise with `IndexOutOfBounds` |
| DoubleLinked.DoubleLinkedList.Sweep | src/main/java/com/mhendren/LRUCache/DoubleLinkedList.java:653-680 | the shared loop of `retainAll`/`removeAll` keeps exactly the payloads whose membership in `c` is as asked, in order; it returns true and bumps `adjustCount` exactly when something was removed, and when it returns false every field of the list and of its nodes holds what it held before (`FieldsAsBefore`) |
| DoubleLinked.DoubleLinkedList.SweepNodes | src/main/java/com/mhendren/LRUCache/DoubleLinkedList.java:655-662 | the node walk unlinks exactly the payloads to drop and reports whether it dropped any; when it dropped none the chain of nodes is unchanged |
| DoubleLinked.DoubleLinkedList.SweepStep | src/main/java/com/mhendren/LRUCache/DoubleLinkedList.java:656-661 | one step of the walk drops the current payload exactly when its membership in `c` is not as asked, and the walk's invariant (`Sweeping`) carries on; while every payload so far was kept, the chain is still the original one |
| DoubleLinked.DoubleLinkedList.RetainAll | src/main/java/com/mhendren/LRUCache/DoubleLinkedList.java:653-665 | `retainAll(c)` keeps exactly the payloads in `c`, in order, and returns whether the list changed; when it did not, every field of the list and of its nodes holds what it held before |
| DoubleLinked.DoubleLinkedList.RemoveAll | src/main/java/com/mhendren/LRUCache/DoubleLinkedList.java:668-680 | `removeAll(c)` drops exactly the payloads in `c`, keeps the rest in order, and returns whether the list changed; when it did not, every field of the list and of its nodes holds what it held before |
| DoubleLinked.DoubleLinkedList.ContainsAll | src/main/java/com/mhendren/LRUCache/DoubleLinkedList.java:683-688 | `containsAll(c)` holds exactly when every element of `c` is a payload |
| DoubleLinked.SweptAll | src/main/java/com/mhendren/LRUCache/DoubleLinkedList.java:653-680 | when the walk has passed every node, the payloads left are exactly the filtered payloads |
| DoubleLinked.LstIter.constructor | src/main/java/com/mhendren/LRUCache/DoubleLinkedList.java:480-500 | a cursor at `index` in `0..size` records the list's `adjustCount` and is in step with the list |
| DoubleLinked.LstIter.CheckValidState | src/main/java/com/mhendren/LRUCache/DoubleLinkedList.java:503-507 | `checkValidState()` throws `ConcurrentModification` exactly when the list's `adjustCount` moved since the cursor recorded it; when it passes, `nextNode` is the node at `index` |
| DoubleLinked.LstIter.HasNext | src/main/java/com/mhendren/LRUCache/DoubleLinkedList.java:509-511 | on a cursor in step with the list, `hasNext()` holds exactly when its index is below `size` |
| DoubleLinked.LstIter.HasPrevious | src/main/java/com/mhendren/LRUCache/DoubleLinkedList.java:526-528 | on a cursor in step with the list, `hasPrevious()` holds exactly when its index is above 0 |
| DoubleLinked.LstIter.NextIndex | src/main/java/com/mhendren/LRUCache/DoubleLinkedList.java:546-548 | on a cursor that is not stale, `nextIndex()` lies in `0..size` and is the position of the node the cursor stands before (`null` past the end) |
| DoubleLinked.LstIter.PreviousIndex | src/main/java/com/mhendren/LRUCache/DoubleLinkedList.java:551-553 | on a cursor that is not stale, `previousIndex()` lies in `-1..size-1`, is one less than `nextIndex()`, and names the node `previous()` steps to: `tail` past the end, otherwise the `prev` of the node the cursor stands before |
| DoubleLinked.LstIter.Next | src/main/java/com/mhendren/LRUCache/DoubleLinkedList.java:503-523 | after the list changed behind the cursor, `next()` fails with `ConcurrentModification` and moves nothing. At the end it fails with `NoSuchElement`. Otherwise it returns the payload at the cursor and advances |
| DoubleLinked.LstIter.Previous | src/main/java/com/mhendren/LRUCache/DoubleLinkedList.java:531-543 | `previous()` fails with `ConcurrentModification` on a stale cursor and with `NoSuchElement` at the front; otherwise it returns the payload before the cursor and steps back |
| DoubleLinked.LstIter.Remove | src/main/java/com/mhendren/LRUCache/DoubleLinkedList.java:556-564 | `remove()` on a stale cursor fails with `ConcurrentModification`. At the end it fails with `NullPointer`. Otherwise it removes the payload at the cursor and stays in step with the list |
| DoubleLinked.LstIter.Set | src/main/java/com/mhendren/LRUCache/DoubleLinkedList.java:566-574 | `set(o)` on a stale cursor fails with `ConcurrentModification`; at the end it fails with `IndexOutOfBounds`; otherwise it replaces the payload at the cursor, stays in step, and bumps `adjustCount` |
| DoubleLinked.LstIter.Add | src/main/java/com/mhendren/LRUCache/DoubleLinkedList.java:578-599 | `add(o)` on a stale cursor fails with `ConcurrentModification`; otherwise it inserts `o` at the cursor, advances past it, and stays in step |
| DoubleLinked.DescIter.constructor | src/main/java/com/mhendren/LRUCache/DoubleLinkedList.java:59-61 | a descending cursor starts past the last payload, in step with the list |
| DoubleLinked.DescIter.HasNext | src/main/java/com/mhendren/LRUCache/DoubleLinkedList.java:63-65 | on a cursor in step, `hasNext()` holds exactly when payloads remain before it |
| DoubleLinked.DescIter.Next | src/main/java/com/mhendren/LRUCache/DoubleLinkedList.java:68-70 | `next()` of the descending cursor is `previous()`: it returns the payloads back to front, failing fast on a stale cursor |
| DoubleLinked.DescIter.Remove | src/main/java/com/mhendren/LRUCache/DoubleLinkedList.java:73-75 | `remove()` of the descending cursor removes the payload at the cursor, which right after `next()` is the one it returned; it fails with `ConcurrentModification` when stale and with `NullPointer` before any `next()`, when the cursor is past the last payload |
| Seqs.IndexOf | src/main/java/com/mhendren/LRUCache/DoubleLinkedList.java:440-454 | the first index of `x`: -1 exactly when `x` is absent, and otherwise a position holding `x` with no `x` before it |
| Seqs.LastIndexOf | src/main/java/com/mhendren/LRUCache/DoubleLinkedList.java:457-471 | the last index of `x`: -1 exactly when `x` is absent, and otherwise a position holding `x` with no `x` after it |
| Seqs.RemoveFirstOccurrenceCounts | src/main/java/com/mhendren/LRUCache/DoubleLinkedList.java:284-301 | removing the first occurrence takes exactly one copy of `x` out of the multiset of payloads, and none when `x` is absent |
| Seqs.NoDupRemoveFirstOccurrence | src/main/java/com/mhendren/LRUCache/LRUCache.java:24-26 | removing a key from a duplicate-free key list keeps it duplicate-free and removes just that key |
| Seqs.FilteredProperties | src/main/java/com/mhendren/LRUCache/DoubleLinkedList.java:653-680 | filtering keeps exactly the elements whose membership is as asked; it changes the length exactly when some element is dropped |
| NullScan.MatchesAsWritten | src/main/java/com/mhendren/LRUCache/DoubleLinkedList.java:203 | the per-node test as written throws `NullPointerException` exactly for a `null` payload and a non-`null` `o`, and otherwise compares |
| NullScan.ScanFromHeadAsWritten | src/main/java/com/mhendren/LRUCache/DoubleLinkedList.java:202-211 | the head-to-tail loop as written: a throw is always `NullPointerException` and needs a non-`null` `o` and a `null` payload; otherwise the result is -1 only when `o` is absent, or a position holding `o` |
| NullScan.ScanFromTailAsWritten | src/main/java/com/mhendren/LRUCache/DoubleLinkedList.java:216-225 | the tail-to-head loop as written: the same guarantees as the head loop, for the walk from the tail |
| NullScan.ScanFromHeadMeaning | src/main/java/com/mhendren/LRUCache/DoubleLinkedList.java:201-212 | the search from the head, as written, agrees with `IndexOf` unless a `null` payload comes before the first `o`, in which case it throws |
| NullScan.ScanFromTailMeaning | src/main/java/com/mhendren/LRUCache/DoubleLinkedList.java:215-226 | the search from the tail, as written, agrees with `LastIndexOf` unless a `null` payload comes after the last `o`, in which case it throws |
| NullScan.RemoveFirstOccurrenceThrows | src/main/java/com/mhendren/LRUCache/DoubleLinkedList.java:201-212 | on `[null, 1]`, `removeFirstOccurrence(1)` as written throws; the intended result is `[null]` |
| NullScan.RemoveLastOccurrenceThrows | src/main/java/com/mhendren/LRUCache/DoubleLinkedList.java:215-226 | on `[1, null]`, `removeLastOccurrence(1)` as written throws; the intended result is `[null]` |
| Scenarios.StandardList | src/test/java/com/mhendren/LRUCache/DoubleLinkedListTest.java:20-25 | three `add`s build the list `[4, 5, 6]` |
| Scenarios.ConcurrentModificationScenario | src/test/java/com/mhendren/LRUCache/DoubleLinkedListTest.java:312-317 | removing from the list behind a cursor makes the cursor's `next()` throw `ConcurrentModificationException` |
| Scenarios.PastLastScenario | src/test/java/com/mhendren/LRUCache/DoubleLinkedListTest.java:319-326 | a `next()` past the last payload throws `NoSuchElementException` |
| Scenarios.IteratorSetScenario | src/test/java/com/mhendren/LRUCache/DoubleLinkedListTest.java:353-362 | `set(100)` after one `next()` gives `[4, 100, 6]` |
| Scenarios.IteratorRemoveScenario | src/test/java/com/mhendren/LRUCache/DoubleLinkedListTest.java:474-482 | `remove()` after one `next()` gives `[4, 6]` |
| Scenarios.DescendingRemoveScenario | src/test/java/com/mhendren/LRUCache/DoubleLinkedListTest.java:653-661 | the descending cursor returns 6 and 5, and its `remove()` then gives `[4, 6]` |
| Scenarios.LongerList | src/test/java/com/mhendren/LRUCache/DoubleLinkedListTest.java:156-166 | three more `add`s build `[4, 5, 6, 7, 8, 9]` |
| Scenarios.SubListScenario | src/test/java/com/mhendren/LRUCache/DoubleLinkedListTest.java:156-166 | `subList(1, 3)` is `[5, 6, 7]`, with the upper bound included |
| Scenarios.SubListTailScenario | src/test/java/com/mhendren/LRUCache/DoubleLinkedListTest.java:183-194 | `subList(3, 5)`, which walks from the tail, is `[7, 8, 9]` |
| Scenarios.NoChangeScenario | src/main/java/com/mhendren/LRUCache/DoubleLinkedList.java:284-301 | `remove((Integer) 7)`, the `remove(Object)` overload, on `[4, 5, 6]` returns false and `addAll(1, [])` returns false; neither changes the list, so a cursor opened before them still returns 4 from `next()` |
| Scenarios.NoChangeSweepScenario | src/main/java/com/mhendren/LRUCache/DoubleLinkedList.java:668-680 | `removeAll({9})` on `[4, 5, 6]` returns false and leaves the chain as it was, so a cursor opened before it still returns 4 from `next()` |
| Scenarios.OverrunCapacityScenario | src/test/java/com/mhendren/LRUCache/LRUCacheTest.java:27-34 | a cache of two evicts key 1 when key 3 arrives |
| Scenarios.RefreshOnGetScenario | src/test/java/com/mhendren/LRUCache/LRUCacheTest.java:36-45 | reading key 1 saves it from the next eviction, and key 2 is evicted instead |
| Scenarios.RefreshOnPutScenario | src/test/java/com/mhendren/LRUCache/LRUCacheTest.java:47-56 | writing key 1 again saves it from eviction and replaces its value |
| Scenarios.DefaultCacheScenario | src/test/java/com/mhendren/LRUCache/LRUCacheTest.java:12-25 | a default cache has capacity 10 and returns what was put into it |

## Left out

- `synchronized` on `put`/`get`: the model is sequential and has no threads.
- Serialization is not modelled: `Serializable`, `writeObject` and `readObject` (lines 701-716) are Java I/O.
- `clone()` (lines 690-697) is left out. It copies the object through `super.clone()`, clears the copy and re-`add`s every payload, so the clone gets a fresh node chain. `Object.clone` has no counterpart here.
- `toArray(T[])` (lines 93-108) is left out: it depends on reflection over array types. `toArray()` is modelled and returns the payload sequence.
- `equals`/`hashCode` of payloads and keys are replaced by Dafny's equality. This also removes the `NullPointerException` that the `equals` loops of `contains`, `indexOf`, `lastIndexOf`, `remove(Object)` and the two occurrence removals throw on a `null` payload. Only the two occurrence removals are also modelled as written (`null_scan.dfy`). `HashMap` is a Dafny `map`.
- Java `int` wrap-around of `nodeCount` and `adjustCount` is not modelled: both are unbounded integers. The fail-fast check therefore never misses a change through wrap-around.
- LruCache.LRUCache.WithCapacity: requires `capacity >= 1`. The source accepts any `int`; with a capacity of 0 or less, `put` on an empty cache removes from an empty `LinkedList` and throws.
- The `java.util.LinkedList` behind the cache's `list` field is a `seq`. Its `remove(Object)` and `add(0, key)` are `RemoveFirstOccurrence` and prepending, which is what that class documents. Its own code is not part of this model.
- Collection arguments (`addAll`, `containsAll`) are sequences, and `retainAll`/`removeAll` take a set, since they only test membership. A `null` collection has no separate case. The source treats it like an empty one only in `addAll` (through the `c != null` test on line 306). `containsAll(null)` throws in its loop (line 684), and `retainAll(null)`/`removeAll(null)` throw at `c.contains` (lines 656, 671) on a non-empty list.
- `subList` returns a fresh copy holding `fromIndex..toIndex` inclusive, as the source does. It is not a view of the list.
- `iterator()` (lines 55-57) returns the same cursor as `listIterator()`, so `ListIterator` models both.
- `remove()` and `set()` of the list cursor act on `nextNode`, as the source does: the node at the cursor, not the one returned last. At the end, `nextNode` is `null`, so `remove()` fails with `NullPointer` and `set()` with `IndexOutOfBounds`.
- The `IndexOutOfBounds` check that the `LstIter` constructor makes is in `ListIteratorAt`. The constructor requires an index in range.
- `subList`'s walk leaves the loop with `break` once it is past `toIndex`. The model folds that test into the loop guard.
- Running time is not modelled. The cache's `put`/`get` scan the key list through `LinkedList.remove(Object)` (LRUCache.java lines 25 and 36), and the model states only what they compute.
- `peek()`/`element()` return `null` rather than throwing for an empty list, like the source; the model returns `None`.
- `newListFromCollection` and `findEndOfSubList` (lines 303-328) are the static methods `NewListFromCollection` and `FindEndOfSubList`. `AddAll`/`AddAllAt` call them and then link the chain with `LinkAtEnd` or `SpliceBefore`, the helper methods for lines 334-338 and 348-355.

## Findings

| source | as written | input that shows it | evidently intended | confidence | as-written member | corrected member |
|---|---|---|---|---|---|---|
| src/main/java/com/mhendren/LRUCache/DoubleLinkedList.java:201-212 | the loop's test `(o == null && cur.data == null) \|\| cur.data.equals(o)` calls `equals` on a `null` payload whenever `o` is not `null` | a list `[null, 1]` and `removeFirstOccurrence(1)`: throws `NullPointerException` | remove the first `1`, leaving `[null]`, as the `java.util.Deque` contract of `removeFirstOccurrence` promises; `remove(Object)` (line 294) and the other searches throw the same way, see the note on `null` payloads | not executed | NullScan.RemoveFirstOccurrenceThrows | DoubleLinked.DoubleLinkedList.RemoveFirstOccurrence |
| src/main/java/com/mhendren/LRUCache/DoubleLinkedList.java:215-226 | the same test in the walk from the tail | a list `[1, null]` and `removeLastOccurrence(1)`: throws `NullPointerException` | remove the last `1`, leaving `[null]`, as the `java.util.Deque` contract promises; `lastIndexOf` (lines 465-466) throws the same way | not executed | NullScan.RemoveLastOccurrenceThrows | DoubleLinked.DoubleLinkedList.RemoveLastOccurrence |

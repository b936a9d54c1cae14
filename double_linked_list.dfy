/** A hand-written doubly linked list with deque, indexed, search and bulk
    operations, and fail-fast cursors over it. */
module DoubleLinked {
  import opened Wrappers
  import opened Seqs

  /** One cell of the list: a payload and its two neighbours. */
  class Node<E> {
    var data: E
    var prev: Node?<E>
    var next: Node?<E>

    constructor (data: E)
      ensures this.data == data && prev == null && next == null
    {
      this.data := data;
      prev := null;
      next := null;
    }
  }

  /** The nodes met when starting at `n` and following `next` (when
      `forward`) or `prev` links, for at most `fuel` steps or until `null`. */
  ghost function Walk<E>(n: Node?<E>, fuel: nat, forward: bool): seq<Node<E>>
    reads *
    decreases fuel
  {
    if fuel == 0 || n == null then []
    else [n] + Walk(if forward then n.next else n.prev, fuel - 1, forward)
  }

  /** Each node of `ns` is followed by the next one and preceded by the one
      before it. */
  ghost predicate Linked<E>(ns: seq<Node<E>>)
    reads ns
  {
    && (forall i {:trigger ns[i].next} | 0 <= i < |ns| - 1 :: ns[i].next == ns[i + 1])
    && (forall i {:trigger ns[i].prev} | 0 < i < |ns| :: ns[i].prev == ns[i - 1])
  }

  /** Node `i` of `ns` holds payload `i` of `cs`. */
  ghost predicate Holds<E>(ns: seq<Node<E>>, cs: seq<E>)
    reads ns
  {
    |ns| == |cs| && forall i | 0 <= i < |ns| :: ns[i].data == cs[i]
  }

  /** `ns` is linked except across the gap between positions `a - 1` and
      `b`: every `next` link from a position before `a - 1` or from `b` on,
      and every `prev` link into a position before `a` or after `b`, points at
      the neighbour. */
  ghost predicate LinkedOutside<E>(ns: seq<Node<E>>, a: int, b: int)
    reads ns
  {
    && (forall i {:trigger ns[i].next} | 0 <= i < |ns| - 1 && !(a - 1 <= i < b) :: ns[i].next == ns[i + 1])
    && (forall i {:trigger ns[i].prev} | 0 < i < |ns| && !(a <= i <= b) :: ns[i].prev == ns[i - 1])
  }

  /** What survives of a linked chain holding `cs` when only the links into
      the gap in front of position `k` were rewritten. */
  twostate lemma SplicedFrame<E>(new N: seq<Node<E>>, new C: seq<E>, new k: int)
    requires old(allocated(N)) && old(allocated(C))
    requires 0 <= k <= |N| && old(Linked(N)) && old(Holds(N, C))
    requires 0 < k ==> old(N[0].prev) == null
    requires k < |N| ==> old(N[|N| - 1].next) == null
    requires forall i {:trigger N[i].next} | 0 <= i < |N| && i != k - 1 :: N[i].next == old(N[i].next)
    requires forall i {:trigger N[i].prev} | 0 <= i < |N| && i != k :: N[i].prev == old(N[i].prev)
    requires forall i {:trigger N[i].data} | 0 <= i < |N| :: N[i].data == old(N[i].data)
    ensures LinkedOutside(N, k, k) && Holds(N, C)
    ensures 0 < k ==> N[0].prev == null
    ensures k < |N| ==> N[|N| - 1].next == null
  {
    if 0 < k {
      assert N[0].prev == old(N[0].prev);
    }
    if k < |N| {
      ghost var last := |N| - 1;
      assert last != k - 1 && N[last].next == old(N[last].next);
    }
  }

  /** What survives of a linked chain holding `cs` when only the neighbours
      of position `k` had their links rewritten. */
  twostate lemma RemovedFrame<E>(new N: seq<Node<E>>, new C: seq<E>, new k: int)
    requires old(allocated(N)) && old(allocated(C))
    requires 0 <= k < |N| && old(Linked(N)) && old(Holds(N, C))
    requires old(N[0].prev) == null && old(N[|N| - 1].next) == null
    requires forall i {:trigger N[i].next} | 0 <= i < |N| && i != k - 1 && i != k :: N[i].next == old(N[i].next)
    requires forall i {:trigger N[i].prev} | 0 <= i < |N| && i != k + 1 && i != k :: N[i].prev == old(N[i].prev)
    requires forall i {:trigger N[i].data} | 0 <= i < |N| :: N[i].data == old(N[i].data)
    ensures LinkedOutside(N, k, k + 1) && Holds(N, C)
    ensures 0 < k ==> N[0].prev == null
    ensures k < |N| - 1 ==> N[|N| - 1].next == null
  {
    if 0 < k {
      assert N[0].prev == old(N[0].prev);
    }
    if k < |N| - 1 {
      ghost var last := |N| - 1;
      assert last != k - 1 && last != k && N[last].next == old(N[last].next);
    }
  }

  /** A linked chain `M` put between the two linked halves of `N` at `k`,
      with the links at both joints pointing across, is linked. */
  lemma SplicedLinked<E>(N: seq<Node<E>>, k: int, M: seq<Node<E>>)
    requires 0 <= k <= |N| && M != []
    requires LinkedOutside(N, k, k) && Linked(M)
    requires 0 < k ==> N[k - 1].next == M[0] && M[0].prev == N[k - 1]
    requires k < |N| ==> M[|M| - 1].next == N[k] && N[k].prev == M[|M| - 1]
    ensures Linked(N[..k] + M + N[k..])
  {
    var s := N[..k] + M + N[k..];
    forall i | 0 <= i < |s| - 1 ensures s[i].next == s[i + 1] {
      SplicedAt(N, k, M, i);
      SplicedAt(N, k, M, i + 1);
    }
    forall i | 0 < i < |s| ensures s[i].prev == s[i - 1] {
      SplicedAt(N, k, M, i);
      SplicedAt(N, k, M, i - 1);
    }
  }

  /** Splicing at the end appends. */
  lemma SplicedAtEnd<T>(N: seq<T>, M: seq<T>)
    ensures N[..|N|] + M + N[|N|..] == N + M
  {
    assert N[..|N|] == N && N[|N|..] == [];
  }

  /** Removing at the front drops the first element. */
  lemma RemovedAtFront<T>(N: seq<T>)
    requires N != []
    ensures N[..0] + N[1..] == N[1..]
  {
    assert N[..0] == [];
  }

  /** Position `i` of `N` with `M` spliced in at `k`. */
  lemma SplicedAt<T>(N: seq<T>, k: int, M: seq<T>, i: int)
    requires 0 <= k <= |N| && 0 <= i < |N| + |M|
    ensures (N[..k] + M + N[k..])[i] == if i < k then N[i] else if i < k + |M| then M[i - k] else N[i - |M|]
  {
  }

  /** Payloads put in at `k` alongside their nodes stay alongside them. */
  lemma SplicedHolds<E>(N: seq<Node<E>>, C: seq<E>, k: int, M: seq<Node<E>>, D: seq<E>)
    requires 0 <= k <= |N| && Holds(N, C) && Holds(M, D)
    ensures Holds(N[..k] + M + N[k..], C[..k] + D + C[k..])
  {
    var ns, cs := N[..k] + M + N[k..], C[..k] + D + C[k..];
    forall i | 0 <= i < |ns| ensures ns[i].data == cs[i] {
      if i < k {
        assert ns[i] == N[i] && cs[i] == C[i];
      } else if i < k + |M| {
        assert ns[i] == M[i - k] && cs[i] == D[i - k];
      } else {
        assert ns[i] == N[i - |M|] && cs[i] == C[i - |M|];
      }
    }
  }

  /** Splicing a duplicate-free chain sharing no node with a duplicate-free
      `N` into it leaves no duplicate. */
  lemma SplicedDistinct<E>(N: seq<Node<E>>, k: int, M: seq<Node<E>>)
    requires 0 <= k <= |N| && Distinct(N) && Distinct(M)
    requires forall m | m in M :: m !in N
    ensures Distinct(N[..k] + M + N[k..])
  {
    DistinctNoDup(N);
    DistinctNoDup(M);
    NoDupSplice(N, k, M);
    DistinctNoDup(N[..k] + M + N[k..]);
  }

  /** The chain without its node at `k`, whose two neighbours now point at
      each other, is linked. */
  lemma RemovedLinked<E>(N: seq<Node<E>>, k: int)
    requires 0 <= k < |N| && LinkedOutside(N, k, k + 1)
    requires 0 < k ==> N[k - 1].next == (if k + 1 < |N| then N[k + 1] else null)
    requires k + 1 < |N| ==> N[k + 1].prev == (if 0 < k then N[k - 1] else null)
    ensures Linked(N[..k] + N[k + 1..])
  {
    var s := N[..k] + N[k + 1..];
    forall i | 0 <= i < |s| - 1 ensures s[i].next == s[i + 1] {
      RemovedAt(N, k, i);
      RemovedAt(N, k, i + 1);
    }
    forall i | 0 < i < |s| ensures s[i].prev == s[i - 1] {
      RemovedAt(N, k, i);
      RemovedAt(N, k, i - 1);
    }
  }

  /** Position `i` of `N` without its element at `k`. */
  lemma RemovedAt<T>(N: seq<T>, k: int, i: int)
    requires 0 <= k < |N| && 0 <= i < |N| - 1
    ensures (N[..k] + N[k + 1..])[i] == if i < k then N[i] else N[i + 1]
  {
  }

  /** Removing a node and its payload at the same position keeps the others
      alongside. */
  lemma RemovedHolds<E>(N: seq<Node<E>>, C: seq<E>, k: int)
    requires 0 <= k < |N| && Holds(N, C)
    ensures Holds(N[..k] + N[k + 1..], RemoveAt(C, k))
  {
    var ns, cs := N[..k] + N[k + 1..], RemoveAt(C, k);
    forall i | 0 <= i < |ns| ensures ns[i].data == cs[i] {
      if k <= i {
        assert ns[i] == N[i + 1] && cs[i] == C[i + 1];
      } else {
        assert ns[i] == N[i] && cs[i] == C[i];
      }
    }
  }

  /** Removing a node keeps a chain duplicate-free. */
  lemma RemovedDistinct<E>(N: seq<Node<E>>, k: int)
    requires 0 <= k < |N| && Distinct(N)
    ensures Distinct(N[..k] + N[k + 1..])
  {
    DistinctNoDup(N);
    NoDupRemoveAt(N, k);
    DistinctNoDup(N[..k] + N[k + 1..]);
  }

  class DoubleLinkedList<E(==)> {
    var head: Node?<E>
    var tail: Node?<E>
    var nodeCount: int
    var adjustCount: int

    // The nodes from head to tail, and their payloads.
    ghost var Nodes: seq<Node<E>>
    ghost var Contents: seq<E>

    /** The link invariant: `Nodes` is the chain from `head` to `tail`, each
        node's `next` being its successor and its `prev` its predecessor, the
        first node has no predecessor and the last no successor, no node
        occurs twice, and `nodeCount` is the length of the chain. */
    ghost predicate Valid()
      reads this, Nodes
    {
      && nodeCount == |Nodes|
      && Holds(Nodes, Contents)
      && Linked(Nodes)
      && Distinct(Nodes)
      && (if Nodes == [] then head == null && tail == null
          else head == Nodes[0] && tail == Nodes[|Nodes| - 1])
      && (Nodes != [] ==> Nodes[0].prev == null && Nodes[|Nodes| - 1].next == null)
    }

    constructor ()
      ensures Valid() && Contents == [] && adjustCount == 0
    {
      head, tail := null, null;
      nodeCount, adjustCount := 0, 0;
      Nodes, Contents := [], [];
    }

    /** Following `next` from `head` and `prev` from `tail` visits the same
        `nodeCount` nodes in opposite orders; both walks stop at `null` on
        their own, and an empty list has neither a head nor a tail. */
    lemma TraversalsAgree()
      requires Valid()
      ensures (head == null <==> nodeCount == 0) && (tail == null <==> nodeCount == 0)
      ensures Walk(head, nodeCount + 1, true) == Nodes
      ensures Walk(tail, nodeCount + 1, false) == Reversed(Nodes)
      ensures |Walk(head, nodeCount + 1, true)| == |Walk(tail, nodeCount + 1, false)| == nodeCount
      ensures Walk(head, nodeCount + 1, true) == Reversed(Walk(tail, nodeCount + 1, false))
    {
      WalkForwardFrom(0, nodeCount + 1);
      WalkBackwardFrom(nodeCount, nodeCount + 1);
      assert Nodes[0..] == Nodes && Nodes[..nodeCount] == Nodes;
      ReversedLength(Nodes);
      ReversedTwice(Nodes);
    }

    lemma {:induction false} WalkForwardFrom(j: int, fuel: nat)
      requires Valid() && 0 <= j <= |Nodes| && fuel > |Nodes| - j
      ensures Walk(if j < |Nodes| then Nodes[j] else null, fuel, true) == Nodes[j..]
      decreases |Nodes| - j
    {
      if j < |Nodes| {
        WalkForwardFrom(j + 1, fuel - 1);
        assert Nodes[j].next == if j + 1 < |Nodes| then Nodes[j + 1] else null;
        assert Nodes[j..] == [Nodes[j]] + Nodes[j + 1..];
      }
    }

    lemma {:induction false} WalkBackwardFrom(j: int, fuel: nat)
      requires Valid() && 0 <= j <= |Nodes| && fuel > j
      ensures Walk(if 0 < j then Nodes[j - 1] else null, fuel, false) == Reversed(Nodes[..j])
      decreases j
    {
      if 0 < j {
        WalkBackwardFrom(j - 1, fuel - 1);
        assert Nodes[j - 1].prev == if 1 < j then Nodes[j - 2] else null;
        assert Nodes[..j][..j - 1] == Nodes[..j - 1];
      }
    }

    function Size(): (r: int)
      reads this, Nodes
      requires Valid()
      ensures r == |Contents|
    {
      nodeCount
    }

    function IsEmpty(): (r: bool)
      reads this, Nodes
      requires Valid()
      ensures r <==> Contents == []
    {
      nodeCount == 0
    }

    /** `contains(Object)`: a walk from `head` comparing payloads. */
    method Contains(o: E) returns (r: bool)
      requires Valid()
      ensures r <==> o in Contents
    {
      var cur := head;
      ghost var i := 0;
      while cur != null
        invariant 0 <= i <= |Nodes|
        invariant cur == if i < |Nodes| then Nodes[i] else null
        invariant o !in Contents[..i]
        decreases |Nodes| - i
      {
        if cur.data == o {
          return true;
        }
        assert Contents[..i + 1] == Contents[..i] + [Contents[i]];
        assert i + 1 < |Nodes| ==> cur.next == Nodes[i + 1];
        cur := cur.next;
        i := i + 1;
      }
      assert Contents[..i] == Contents;
      return false;
    }

    /** `toArray()`: the payloads in order, collected along the `next` chain
        (the fresh `Object[]` is modelled as a sequence value). */
    method ToArray() returns (elems: seq<E>)
      requires Valid()
      ensures elems == Contents
    {
      elems := [];
      var cur := head;
      while cur != null
        invariant 0 <= |elems| <= |Nodes|
        invariant cur == if |elems| < |Nodes| then Nodes[|elems|] else null
        invariant elems == Contents[..|elems|]
        decreases |Nodes| - |elems|
      {
        assert |elems| + 1 < |Nodes| ==> cur.next == Nodes[|elems| + 1];
        elems := elems + [cur.data];
        cur := cur.next;
      }
      assert Contents[..|elems|] == Contents;
    }

    /** The state right after splicing a linked chain `M` holding `D` into
        the chain `N` holding `C` so that it starts at position `k`: the
        ghost fields and the link fields around the two joints. */
    ghost predicate SpliceShape(N: seq<Node<E>>, C: seq<E>, k: int, M: seq<Node<E>>, D: seq<E>)
      reads this, N, M
    {
      && 0 <= k <= |N| == |C| && M != []
      && Nodes == N[..k] + M + N[k..] && Contents == C[..k] + D + C[k..]
      && nodeCount == |N| + |M|
      && head == (if k == 0 then M[0] else N[0])
      && tail == (if k == |N| then M[|M| - 1] else N[|N| - 1])
      && (forall m | m in M :: m !in N)
      && Linked(M) && Distinct(M) && Holds(M, D)
      && M[0].prev == (if k == 0 then null else N[k - 1])
      && M[|M| - 1].next == (if k == |N| then null else N[k])
      && (0 < k ==> N[k - 1].next == M[0])
      && (k < |N| ==> N[k].prev == M[|M| - 1])
    }

    /** Splicing a fresh, linked chain `M` of nodes into the chain so that it
        starts at position `k` keeps the link invariant, provided that only the
        chain and its two new neighbours had their links rewritten. */
    twostate lemma SplicedValid(new N: seq<Node<E>>, new C: seq<E>, new k: int,
                                new M: seq<Node<E>>, new D: seq<E>)
      requires old(Valid()) && N == old(Nodes) && C == old(Contents)
      requires SpliceShape(N, C, k, M, D)
      requires forall i {:trigger N[i].next} | 0 <= i < |N| && i != k - 1 :: N[i].next == old(N[i].next)
      requires forall i {:trigger N[i].prev} | 0 <= i < |N| && i != k :: N[i].prev == old(N[i].prev)
      requires forall i {:trigger N[i].data} | 0 <= i < |N| :: N[i].data == old(N[i].data)
      ensures Valid()
    {
      SplicedFrame(N, C, k);
      SplicedValidNow(N, C, k, M, D);
    }

    /** The single-state half of `SplicedValid`: the two untouched parts of
        the old chain are still linked and still hold their payloads. */
    lemma SplicedValidNow(N: seq<Node<E>>, C: seq<E>, k: int, M: seq<Node<E>>, D: seq<E>)
      requires SpliceShape(N, C, k, M, D) && Distinct(N)
      requires LinkedOutside(N, k, k) && Holds(N, C)
      requires 0 < k ==> N[0].prev == null
      requires k < |N| ==> N[|N| - 1].next == null
      ensures Valid()
    {
      SplicedLinked(N, k, M);
      SplicedHolds(N, C, k, M, D);
      SplicedDistinct(N, k, M);
      SpliceEnds(N, k, M);
    }

    /** Unlinking the node at position `k`, by pointing its two neighbours at
        each other (or moving `head`/`tail`), keeps the link invariant. */
    twostate lemma RemovedValid(new N: seq<Node<E>>, new C: seq<E>, new k: int)
      requires old(Valid()) && N == old(Nodes) && C == old(Contents) && 0 <= k < |N|
      requires Nodes == N[..k] + N[k + 1..] && Contents == RemoveAt(C, k)
      requires nodeCount == |N| - 1
      requires head == (if k == 0 then (if |N| > 1 then N[1] else null) else N[0])
      requires tail == (if k == |N| - 1 then (if k > 0 then N[k - 1] else null) else N[|N| - 1])
      requires 0 < k ==> N[k - 1].next == (if k + 1 < |N| then N[k + 1] else null)
      requires k + 1 < |N| ==> N[k + 1].prev == (if 0 < k then N[k - 1] else null)
      requires forall i {:trigger N[i].next} | 0 <= i < |N| && i != k - 1 && i != k :: N[i].next == old(N[i].next)
      requires forall i {:trigger N[i].prev} | 0 <= i < |N| && i != k + 1 && i != k :: N[i].prev == old(N[i].prev)
      requires forall i {:trigger N[i].data} | 0 <= i < |N| :: N[i].data == old(N[i].data)
      ensures Valid()
    {
      RemovedFrame(N, C, k);
      RemovedValidNow(N, C, k);
    }

    /** The single-state half of `RemovedValid`. */
    lemma RemovedValidNow(N: seq<Node<E>>, C: seq<E>, k: int)
      requires 0 <= k < |N| && Distinct(N)
      requires LinkedOutside(N, k, k + 1) && Holds(N, C)
      requires Nodes == N[..k] + N[k + 1..] && Contents == RemoveAt(C, k)
      requires nodeCount == |N| - 1
      requires head == (if k == 0 then (if |N| > 1 then N[1] else null) else N[0])
      requires tail == (if k == |N| - 1 then (if k > 0 then N[k - 1] else null) else N[|N| - 1])
      requires 0 < k ==> N[0].prev == null
      requires k < |N| - 1 ==> N[|N| - 1].next == null
      requires 0 < k ==> N[k - 1].next == (if k + 1 < |N| then N[k + 1] else null)
      requires k + 1 < |N| ==> N[k + 1].prev == (if 0 < k then N[k - 1] else null)
      ensures Valid()
    {
      if |N| > 1 {
        assert Nodes[0] == (if k == 0 then N[1] else N[0]);
        assert Nodes[|Nodes| - 1] == (if k == |N| - 1 then N[k - 1] else N[|N| - 1]);
      }
      RemovedLinked(N, k);
      RemovedHolds(N, C, k);
      RemovedDistinct(N, k);
    }

    /** `add(E)`: appends `o` after the tail; always returns true. */
    method Add(o: E) returns (r: bool)
      requires Valid()
      modifies this, Nodes
      ensures Valid() && Contents == old(Contents) + [o]
      ensures adjustCount == old(adjustCount) + 1
      ensures Nodes == old(Nodes) + [Nodes[|Nodes| - 1]] && fresh(Nodes[|Nodes| - 1])
      ensures r
    {
      ghost var N, C := Nodes, Contents;
      var newNode := new Node(o);
      if tail != null {
        tail.next := newNode;
      }
      newNode.next := null;
      newNode.prev := tail;
      tail := newNode;
      if head == null {
        head := newNode;
      }
      nodeCount := nodeCount + 1;
      adjustCount := adjustCount + 1;  // adjust()
      Nodes, Contents := N + [newNode], C + [o];
      assert newNode !in N;
      SplicedAtEnd(N, [newNode]);
      SplicedAtEnd(C, [o]);
      SplicedValid(N, C, |N|, [newNode], [o]);
      return true;
    }

    /** The splice of a cursor's `add(Object)`: `linkBefore` when the cursor
        stands before `node`, the node at position `k`, and `add` when it
        stands at the end. `node` ends up right after the new payload. */
    method InsertBefore(node: Node?<E>, element: E, ghost k: int)
      requires Valid() && 0 <= k <= |Nodes| && node == if k < |Nodes| then Nodes[k] else null
      modifies this, Nodes
      ensures Valid() && Contents == InsertAt(old(Contents), k, element)
      ensures adjustCount == old(adjustCount) + 1
      ensures k + 1 <= |Nodes| && node == if k + 1 < |Nodes| then Nodes[k + 1] else null
    {
      if node != null {
        LinkBefore(node, element, k);
      } else {
        ghost var C := Contents;
        var _ := Add(element);
        assert C[..k] == C && C[k..] == [];
      }
    }

    /** `findIndex(int)`: the node at position `index`, walking from the
        tail when `index` is in the upper half and from the head otherwise. */
    method FindIndex(index: int) returns (cur: Node<E>)
      requires Valid() && 0 <= index < |Contents|
      ensures cur == Nodes[index] && cur.data == Contents[index]
    {
      var c: Node?<E>;
      if index >= nodeCount / 2 {
        c := tail;
        var i := nodeCount - 1;
        while i > index
          invariant index <= i <= nodeCount - 1
          invariant c == Nodes[i]
        {
          c := c.prev;
          i := i - 1;
        }
      } else {
        c := head;
        var i := 0;
        while i < index
          invariant 0 <= i <= index
          invariant c == Nodes[i]
        {
          c := c.next;
          i := i + 1;
        }
      }
      return c;
    }

    /** `checkIndex(int, int)`: positions `0 .. size() + adjust - 1` pass, any
        other throws. */
    function CheckIndex(index: int, adjust: int): (r: Outcome)
      reads this, Nodes
      requires Valid()
      ensures r.Pass? <==> 0 <= index < |Contents| + adjust
      ensures r.Fail? ==> r.exc == IndexOutOfBounds
    {
      if index >= nodeCount + adjust || index < 0 then Fail(IndexOutOfBounds) else Pass
    }

    /** `add(int, E)`: inserts `element` so that it ends up at position
        `index`; positions outside `0 .. size()` throw. */
    method AddAt(index: int, element: E) returns (r: Outcome)
      requires Valid()
      modifies this, Nodes
      ensures Valid()
      ensures r == if 0 <= index <= old(|Contents|) then Pass else Fail(IndexOutOfBounds)
      ensures r.Pass? ==> Contents == InsertAt(old(Contents), index, element)
      ensures r.Pass? ==> adjustCount == old(adjustCount) + 1
      ensures r.Fail? ==> unchanged(this) && unchanged(Nodes)
      ensures r.Pass? ==> Nodes == InsertAt(old(Nodes), index, Nodes[index]) && fresh(Nodes[index])
    {
      r := CheckIndex(index, 1);
      if r.Fail? {
        return;
      }
      if index == nodeCount {
        var _ := Add(element);
      } else {
        var cur := FindIndex(index);
        LinkBefore(cur, element, index);
      }
    }

    /** The splice of `add(int, E)` for a position inside the list: a new node
        holding `element` goes in front of `cur`, the node at position `k`. */
    method LinkBefore(cur: Node<E>, element: E, ghost k: int)
      requires Valid() && 0 <= k < |Nodes| && cur == Nodes[k]
      modifies this, Nodes
      ensures Valid() && Contents == InsertAt(old(Contents), k, element)
      ensures adjustCount == old(adjustCount) + 1
      ensures Nodes == InsertAt(old(Nodes), k, Nodes[k]) && fresh(Nodes[k])
    {
      ghost var N, C := Nodes, Contents;
      forall i | 0 <= i < |N| && i != k ensures N[i] != cur {
        DistinctAt(N, i, k);
      }
      forall i | 0 < k && 0 <= i < |N| && i != k - 1 ensures N[i] != N[k - 1] {
        DistinctAt(N, i, k - 1);
      }
      var newNode := new Node(element);
      assert k > 0 ==> cur.prev == N[k - 1];
      if cur.prev != null {
        cur.prev.next := newNode;
      } else {
        head := newNode;
      }
      newNode.next := cur;
      newNode.prev := cur.prev;
      cur.prev := newNode;
      nodeCount := nodeCount + 1;
      adjustCount := adjustCount + 1;  // adjust()
      Nodes, Contents := N[..k] + [newNode] + N[k..], InsertAt(C, k, element);
      assert newNode !in N;
      SplicedValid(N, C, k, [newNode], [element]);
    }

    /** `addFirst(E)`, which is `add(0, e)`: prepends `e`. */
    method AddFirst(e: E)
      requires Valid()
      modifies this, Nodes
      ensures Valid() && Contents == [e] + old(Contents)
      ensures adjustCount == old(adjustCount) + 1
      ensures |Nodes| == |old(Nodes)| + 1 && fresh(Nodes[0])
      ensures forall i | 0 < i < |Nodes| :: Nodes[i] == old(Nodes)[i - 1]
    {
      var _ := AddAt(0, e);
    }

    /** `addLast(E)`, which is `add(E)`. */
    method AddLast(e: E)
      requires Valid()
      modifies this, Nodes
      ensures Valid() && Contents == old(Contents) + [e]
      ensures adjustCount == old(adjustCount) + 1
      ensures forall i | 0 <= i < |Nodes| :: Nodes[i] in old(Nodes) || fresh(Nodes[i])
    {
      var _ := Add(e);
    }

    /** `offerFirst(E)`: prepends `e` and reports success. */
    method OfferFirst(e: E) returns (r: bool)
      requires Valid()
      modifies this, Nodes
      ensures Valid() && Contents == [e] + old(Contents) && r
      ensures adjustCount == old(adjustCount) + 1
      ensures forall i | 0 <= i < |Nodes| :: Nodes[i] in old(Nodes) || fresh(Nodes[i])
    {
      var _ := AddAt(0, e);
      return true;
    }

    /** `offerLast(E)`: appends `e` and reports success. */
    method OfferLast(e: E) returns (r: bool)
      requires Valid()
      modifies this, Nodes
      ensures Valid() && Contents == old(Contents) + [e] && r
      ensures adjustCount == old(adjustCount) + 1
      ensures forall i | 0 <= i < |Nodes| :: Nodes[i] in old(Nodes) || fresh(Nodes[i])
    {
      var _ := Add(e);
      return true;
    }

    /** `offer(E)`, which is `add(E)`. */
    method Offer(e: E) returns (r: bool)
      requires Valid()
      modifies this, Nodes
      ensures Valid() && Contents == old(Contents) + [e] && r
      ensures adjustCount == old(adjustCount) + 1
      ensures forall i | 0 <= i < |Nodes| :: Nodes[i] in old(Nodes) || fresh(Nodes[i])
    {
      r := Add(e);
    }

    /** `push(E)`, which is `addFirst(E)`. */
    method Push(e: E)
      requires Valid()
      modifies this, Nodes
      ensures Valid() && Contents == [e] + old(Contents)
      ensures adjustCount == old(adjustCount) + 1
      ensures forall i | 0 <= i < |Nodes| :: Nodes[i] in old(Nodes) || fresh(Nodes[i])
    {
      AddFirst(e);
    }

    /** `removeFirst()`: unlinks the head and returns its payload; an empty
        list gives `null` and stays as it is. */
    method RemoveFirst() returns (r: Option<E>)
      requires Valid()
      modifies this, Nodes
      ensures Valid()
      ensures old(Contents) == [] ==> r == None && unchanged(this)
      ensures old(Contents) != [] ==> && r == Some(old(Contents)[0])
                                      && Contents == old(Contents)[1..]
                                      && adjustCount == old(adjustCount) + 1
      ensures forall i | 0 <= i < |Nodes| :: Nodes[i] in old(Nodes) || fresh(Nodes[i])
    {
      if head != null {
        ghost var N, C := Nodes, Contents;
        var node := head;
        if head.next != null {
          head.next.prev := null;
        } else {
          tail := null;
        }
        head := head.next;
        nodeCount := nodeCount - 1;
        adjustCount := adjustCount + 1;  // adjust()
        Nodes, Contents := N[1..], C[1..];
        RemovedAtFront(N);
        RemovedValid(N, C, 0);
        return Some(node.data);
      }
      return None;
    }

    /** `removeLast()`: unlinks the tail and returns its payload; an empty
        list gives `null` and stays as it is. */
    method RemoveLast() returns (r: Option<E>)
      requires Valid()
      modifies this, Nodes
      ensures Valid()
      ensures old(Contents) == [] ==> r == None && unchanged(this)
      ensures old(Contents) != [] ==> && r == Some(old(Contents)[|old(Contents)| - 1])
                                      && Contents == old(Contents)[..|old(Contents)| - 1]
                                      && adjustCount == old(adjustCount) + 1
      ensures forall i | 0 <= i < |Nodes| :: Nodes[i] in old(Nodes) || fresh(Nodes[i])
    {
      if tail != null {
        ghost var N, C := Nodes, Contents;
        ghost var k := |N| - 1;
        var node := tail;
        assert 0 < k ==> tail.prev == N[k - 1];
        if tail.prev != null {
          tail.prev.next := null;
        } else {
          head := null;
        }
        tail := tail.prev;
        nodeCount := nodeCount - 1;
        adjustCount := adjustCount + 1;  // adjust()
        Nodes, Contents := N[..k], C[..k];
        assert Nodes == N[..k] + N[k + 1..] && Contents == RemoveAt(C, k);
        RemovedValid(N, C, k);
        return Some(node.data);
      }
      return None;
    }

    /** `pollFirst()`: `null` on an empty list, otherwise `removeFirst()`. */
    method PollFirst() returns (r: Option<E>)
      requires Valid()
      modifies this, Nodes
      ensures Valid()
      ensures old(Contents) == [] ==> r == None && unchanged(this)
      ensures old(Contents) != [] ==> && r == Some(old(Contents)[0])
                                      && Contents == old(Contents)[1..]
                                      && adjustCount == old(adjustCount) + 1
      ensures forall i | 0 <= i < |Nodes| :: Nodes[i] in old(Nodes) || fresh(Nodes[i])
    {
      if head == null {
        return None;
      }
      r := RemoveFirst();
    }

    /** `pollLast()`: `null` on an empty list, otherwise `removeLast()`. */
    method PollLast() returns (r: Option<E>)
      requires Valid()
      modifies this, Nodes
      ensures Valid()
      ensures old(Contents) == [] ==> r == None && unchanged(this)
      ensures old(Contents) != [] ==> && r == Some(old(Contents)[|old(Contents)| - 1])
                                      && Contents == old(Contents)[..|old(Contents)| - 1]
                                      && adjustCount == old(adjustCount) + 1
      ensures forall i | 0 <= i < |Nodes| :: Nodes[i] in old(Nodes) || fresh(Nodes[i])
    {
      if tail == null {
        return None;
      }
      r := RemoveLast();
    }

    /** `remove()`, `poll()` and `pop()` are all `removeFirst()`. */
    method Remove() returns (r: Option<E>)
      requires Valid()
      modifies this, Nodes
      ensures Valid()
      ensures old(Contents) == [] ==> r == None && unchanged(this)
      ensures old(Contents) != [] ==> && r == Some(old(Contents)[0])
                                      && Contents == old(Contents)[1..]
                                      && adjustCount == old(adjustCount) + 1
      ensures forall i | 0 <= i < |Nodes| :: Nodes[i] in old(Nodes) || fresh(Nodes[i])
    {
      r := RemoveFirst();
    }

    method Poll() returns (r: Option<E>)
      requires Valid()
      modifies this, Nodes
      ensures Valid()
      ensures old(Contents) == [] ==> r == None && unchanged(this)
      ensures old(Contents) != [] ==> && r == Some(old(Contents)[0])
                                      && Contents == old(Contents)[1..]
                                      && adjustCount == old(adjustCount) + 1
      ensures forall i | 0 <= i < |Nodes| :: Nodes[i] in old(Nodes) || fresh(Nodes[i])
    {
      r := RemoveFirst();
    }

    method Pop() returns (r: Option<E>)
      requires Valid()
      modifies this, Nodes
      ensures Valid()
      ensures old(Contents) == [] ==> r == None && unchanged(this)
      ensures old(Contents) != [] ==> && r == Some(old(Contents)[0])
                                      && Contents == old(Contents)[1..]
                                      && adjustCount == old(adjustCount) + 1
      ensures forall i | 0 <= i < |Nodes| :: Nodes[i] in old(Nodes) || fresh(Nodes[i])
    {
      r := RemoveFirst();
    }

    /** `getFirst()`: the first payload, or `NoSuchElementException`. */
    function GetFirst(): (r: Result<E>)
      reads this, Nodes
      requires Valid()
      ensures r.Err? <==> Contents == []
      ensures r.Err? ==> r.exc == NoSuchElement
      ensures r.Ok? ==> r.value == Contents[0]
    {
      if head == null then Err(NoSuchElement) else Ok(head.data)
    }

    /** `getLast()`: the last payload, or `NoSuchElementException`. */
    function GetLast(): (r: Result<E>)
      reads this, Nodes
      requires Valid()
      ensures r.Err? <==> Contents == []
      ensures r.Err? ==> r.exc == NoSuchElement
      ensures r.Ok? ==> r.value == Contents[|Contents| - 1]
    {
      if tail == null then Err(NoSuchElement) else Ok(tail.data)
    }

    /** `peekFirst()`: the first payload, or `null`. */
    function PeekFirst(): (r: Option<E>)
      reads this, Nodes
      requires Valid()
      ensures r.None? <==> Contents == []
      ensures r.Some? ==> r.value == Contents[0]
    {
      if head != null then Some(head.data) else None
    }

    /** `peekLast()`: the last payload, or `null`. */
    function PeekLast(): (r: Option<E>)
      reads this, Nodes
      requires Valid()
      ensures r.None? <==> Contents == []
      ensures r.Some? ==> r.value == Contents[|Contents| - 1]
    {
      if tail != null then Some(tail.data) else None
    }

    /** `element()`: unlike `java.util.Deque`, `null` on an empty list
        rather than an exception. */
    function Element(): (r: Option<E>)
      reads this, Nodes
      requires Valid()
      ensures r.None? <==> Contents == []
      ensures r.Some? ==> r.value == Contents[0]
    {
      if head != null then Some(head.data) else None
    }

    /** `peek()`: the first payload, or `null`. */
    function Peek(): (r: Option<E>)
      reads this, Nodes
      requires Valid()
      ensures r.None? <==> Contents == []
      ensures r.Some? ==> r.value == Contents[0]
    {
      if head != null then Some(head.data) else None
    }

    /** The splice of `removeNode`: the neighbours of `node`, the node at
        position `k`, are pointed at each other (or `head`/`tail` moved past
        it). The node keeps its own links. */
    method Unlink(node: Node<E>, ghost k: int)
      requires Valid() && 0 <= k < |Nodes| && node == Nodes[k]
      modifies this, Nodes
      ensures Valid()
      ensures Nodes == old(Nodes)[..k] + old(Nodes)[k + 1..]
      ensures Contents == RemoveAt(old(Contents), k)
      ensures node.next == old(node.next) && adjustCount == old(adjustCount)
    {
      ghost var N, C := Nodes, Contents;
      forall i | 0 <= i < |N| && i != k ensures N[i] != node {
        DistinctAt(N, i, k);
      }
      assert 0 < k ==> node.prev == N[k - 1];
      assert k + 1 < |N| ==> node.next == N[k + 1];
      forall i | 0 < k && 0 <= i < |N| && i != k - 1 ensures N[i] != N[k - 1] {
        DistinctAt(N, i, k - 1);
      }
      forall i | k + 1 < |N| && 0 <= i < |N| && i != k + 1 ensures N[i] != N[k + 1] {
        DistinctAt(N, i, k + 1);
      }
      if node.prev != null {
        node.prev.next := node.next;
      } else {
        head := node.next;
      }
      if node.next != null {
        node.next.prev := node.prev;
      } else {
        tail := node.prev;
      }
      nodeCount := nodeCount - 1;
      Nodes, Contents := N[..k] + N[k + 1..], RemoveAt(C, k);
      RemovedValid(N, C, k);
    }

    /** `removeNode`: unlinks the node at position `k` and counts the
        change. */
    method RemoveNode(node: Node<E>, ghost k: int)
      requires Valid() && 0 <= k < |Nodes| && node == Nodes[k]
      modifies this, Nodes
      ensures Valid()
      ensures Nodes == old(Nodes)[..k] + old(Nodes)[k + 1..]
      ensures Contents == RemoveAt(old(Contents), k)
      ensures node.next == old(node.next) && adjustCount == old(adjustCount) + 1
    {
      Unlink(node, k);
      adjustCount := adjustCount + 1;  // adjust()
    }

    /** The position of the first node holding `o`, found by walking from
        `head`, or `null` when no node holds it. */
    method FindFirst(o: E) returns (cur: Node?<E>, ghost k: int)
      requires Valid()
      ensures cur == null <==> o !in Contents
      ensures cur != null ==> k == Seqs.IndexOf(Contents, o) && cur == Nodes[k]
    {
      cur := head;
      k := 0;
      while cur != null
        invariant 0 <= k <= |Nodes|
        invariant cur == if k < |Nodes| then Nodes[k] else null
        invariant o !in Contents[..k]
        decreases |Nodes| - k
      {
        if cur.data == o {
          IndexOfUnique(Contents, o, k);
          return;
        }
        assert Contents[..k + 1] == Contents[..k] + [Contents[k]];
        assert k + 1 < |Nodes| ==> cur.next == Nodes[k + 1];
        cur := cur.next;
        k := k + 1;
      }
      assert Contents[..k] == Contents;
    }

    /** The position of the last node holding `o`, found by walking from
        `tail`, or `null` when no node holds it. */
    method FindLast(o: E) returns (cur: Node?<E>, ghost k: int)
      requires Valid()
      ensures cur == null <==> o !in Contents
      ensures cur != null ==> k == Seqs.LastIndexOf(Contents, o) && cur == Nodes[k]
    {
      cur := tail;
      k := |Nodes| - 1;
      while cur != null
        invariant -1 <= k < |Nodes|
        invariant cur == if 0 <= k then Nodes[k] else null
        invariant o !in Contents[k + 1..]
        decreases k
      {
        if cur.data == o {
          LastIndexOfUnique(Contents, o, k);
          return;
        }
        assert Contents[k..] == [Contents[k]] + Contents[k + 1..];
        assert 0 < k ==> cur.prev == Nodes[k - 1];
        cur := cur.prev;
        k := k - 1;
      }
      assert Contents[0..] == Contents;
    }

    /** `remove(Object)`: unlinks the first node holding `o`; false when
        there is none. */
    method RemoveObject(o: E) returns (r: bool)
      requires Valid()
      modifies this, Nodes
      ensures Valid()
      ensures r <==> o in old(Contents)
      ensures Contents == Seqs.RemoveFirstOccurrence(old(Contents), o)
      ensures adjustCount == old(adjustCount) + (if r then 1 else 0)
      ensures !r ==> unchanged(this) && unchanged(Nodes)
      ensures forall i | 0 <= i < |Nodes| :: Nodes[i] in old(Nodes) || fresh(Nodes[i])
    {
      var cur;
      ghost var k;
      cur, k := FindFirst(o);
      if cur != null {
        RemoveNode(cur, k);
        return true;
      }
      return false;
    }

    /** `removeFirstOccurrence(Object)`: the same walk and splice as
        `remove(Object)`, written out inline in the source. */
    method RemoveFirstOccurrence(o: E) returns (r: bool)
      requires Valid()
      modifies this, Nodes
      ensures Valid()
      ensures r <==> o in old(Contents)
      ensures Contents == Seqs.RemoveFirstOccurrence(old(Contents), o)
      ensures adjustCount == old(adjustCount) + (if r then 1 else 0)
      ensures !r ==> unchanged(this) && unchanged(Nodes)
      ensures forall i | 0 <= i < |Nodes| :: Nodes[i] in old(Nodes) || fresh(Nodes[i])
    {
      var cur;
      ghost var k;
      cur, k := FindFirst(o);
      if cur != null {
        Unlink(cur, k);
        adjustCount := adjustCount + 1;  // adjust()
        return true;
      }
      return false;
    }

    /** `removeLastOccurrence(Object)`: unlinks the last node holding `o`,
        found by walking from `tail`; false when there is none. */
    method RemoveLastOccurrence(o: E) returns (r: bool)
      requires Valid()
      modifies this, Nodes
      ensures Valid()
      ensures r <==> o in old(Contents)
      ensures Contents == Seqs.RemoveLastOccurrence(old(Contents), o)
      ensures adjustCount == old(adjustCount) + (if r then 1 else 0)
      ensures !r ==> unchanged(this) && unchanged(Nodes)
      ensures forall i | 0 <= i < |Nodes| :: Nodes[i] in old(Nodes) || fresh(Nodes[i])
    {
      var cur;
      ghost var k;
      cur, k := FindLast(o);
      if cur != null {
        Unlink(cur, k);
        adjustCount := adjustCount + 1;  // adjust()
        return true;
      }
      return false;
    }

    /** `indexOf(Object)`: the position of the first payload equal to `o`,
        counted from `head`, or -1. */
    method IndexOf(o: E) returns (r: int)
      requires Valid()
      ensures r == Seqs.IndexOf(Contents, o)
    {
      var index := 0;
      var cur := head;
      while cur != null
        invariant 0 <= index <= |Nodes|
        invariant cur == if index < |Nodes| then Nodes[index] else null
        invariant o !in Contents[..index]
        decreases |Nodes| - index
      {
        if cur.data == o {
          IndexOfUnique(Contents, o, index);
          return index;
        }
        assert Contents[..index + 1] == Contents[..index] + [Contents[index]];
        assert index + 1 < |Nodes| ==> cur.next == Nodes[index + 1];
        cur := cur.next;
        index := index + 1;
      }
      assert Contents[..index] == Contents;
      return -1;
    }

    /** `lastIndexOf(Object)`: the position of the last payload equal to
        `o`, counted down from `nodeCount - 1` while walking from `tail`, or
        -1. */
    method LastIndexOf(o: E) returns (r: int)
      requires Valid()
      ensures r == Seqs.LastIndexOf(Contents, o)
    {
      var index := nodeCount - 1;
      var cur := tail;
      while cur != null
        invariant -1 <= index < |Nodes|
        invariant cur == if 0 <= index then Nodes[index] else null
        invariant o !in Contents[index + 1..]
        decreases index
      {
        if cur.data == o {
          LastIndexOfUnique(Contents, o, index);
          return index;
        }
        assert Contents[index..] == [Contents[index]] + Contents[index + 1..];
        assert 0 < index ==> cur.prev == Nodes[index - 1];
        cur := cur.prev;
        index := index - 1;
      }
      assert Contents[0..] == Contents;
      return -1;
    }

    /** `get(int)`: the payload at `index`; positions outside
        `0 .. size() - 1` throw. */
    method Get(index: int) returns (r: Result<E>)
      requires Valid()
      ensures r == if 0 <= index < |Contents| then Ok(Contents[index]) else Err(IndexOutOfBounds)
    {
      var chk := CheckIndex(index, 0);
      if chk.Fail? {
        return Err(chk.exc);
      }
      var cur := FindIndex(index);
      return Ok(cur.data);
    }

    /** `set(int, E)`: replaces the payload at `index` and returns the one it
        held; positions outside `0 .. size() - 1` throw. */
    method Set(index: int, element: E) returns (r: Result<E>)
      requires Valid()
      modifies this, Nodes
      ensures Valid()
      ensures r == if 0 <= index < old(|Contents|) then Ok(old(Contents)[index]) else Err(IndexOutOfBounds)
      ensures r.Ok? ==> && Contents == old(Contents)[index := element] && Nodes == old(Nodes)
                        && adjustCount == old(adjustCount) + 1
      ensures r.Err? ==> unchanged(this) && unchanged(Nodes)
    {
      var chk := CheckIndex(index, 0);
      if chk.Fail? {
        return Err(chk.exc);
      }
      var cur := FindIndex(index);
      var data := cur.data;
      Overwrite(cur, index, element);
      adjustCount := adjustCount + 1;  // adjust()
      return Ok(data);
    }

    /** Stores `element` in `node`, the node at position `k`. */
    method Overwrite(node: Node<E>, ghost k: int, element: E)
      requires Valid() && 0 <= k < |Nodes| && node == Nodes[k]
      modifies this, node
      ensures Valid() && Contents == old(Contents)[k := element] && Nodes == old(Nodes)
      ensures adjustCount == old(adjustCount)
    {
      forall i | 0 <= i < |Nodes| && i != k ensures Nodes[i] != node {
        DistinctAt(Nodes, i, k);
      }
      node.data := element;
      Contents := Contents[k := element];
    }

    /** `adjust()`: counts one structural change, which makes every cursor
        opened before it stale. */
    method Adjust()
      requires Valid()
      modifies this
      ensures Valid() && adjustCount == old(adjustCount) + 1
      ensures Nodes == old(Nodes) && Contents == old(Contents)
    {
      adjustCount := adjustCount + 1;
    }

    /** `remove(int)`: unlinks the node at `index`, rewriting the successor's
        link before the predecessor's, and returns its payload; positions
        outside `0 .. size() - 1` throw. */
    method RemoveIndex(index: int) returns (r: Result<E>)
      requires Valid()
      modifies this, Nodes
      ensures Valid()
      ensures r == if 0 <= index < old(|Contents|) then Ok(old(Contents)[index]) else Err(IndexOutOfBounds)
      ensures r.Ok? ==> Contents == RemoveAt(old(Contents), index) && adjustCount == old(adjustCount) + 1
      ensures r.Err? ==> unchanged(this) && unchanged(Nodes)
      ensures forall i | 0 <= i < |Nodes| :: Nodes[i] in old(Nodes) || fresh(Nodes[i])
    {
      var chk := CheckIndex(index, 0);
      if chk.Fail? {
        return Err(chk.exc);
      }
      var cur := FindIndex(index);
      UnlinkAt(cur, index);
      return Ok(cur.data);
    }

    /** The splice of `remove(int)`: like `Unlink`, but the successor of
        `cur` is rewritten first. */
    method UnlinkAt(cur: Node<E>, ghost k: int)
      requires Valid() && 0 <= k < |Nodes| && cur == Nodes[k]
      modifies this, Nodes
      ensures Valid()
      ensures Contents == RemoveAt(old(Contents), k) && adjustCount == old(adjustCount) + 1
      ensures cur.data == old(cur.data)
      ensures forall i | 0 <= i < |Nodes| :: Nodes[i] in old(Nodes) || fresh(Nodes[i])
    {
      ghost var N, C := Nodes, Contents;
      forall i | 0 <= i < |N| && i != k ensures N[i] != cur {
        DistinctAt(N, i, k);
      }
      assert 0 < k ==> cur.prev == N[k - 1];
      assert k + 1 < |N| ==> cur.next == N[k + 1];
      forall i | 0 < k && 0 <= i < |N| && i != k - 1 ensures N[i] != N[k - 1] {
        DistinctAt(N, i, k - 1);
      }
      forall i | k + 1 < |N| && 0 <= i < |N| && i != k + 1 ensures N[i] != N[k + 1] {
        DistinctAt(N, i, k + 1);
      }
      if cur.next != null {
        cur.next.prev := cur.prev;
      } else {
        tail := cur.prev;
      }
      if cur.prev != null {
        cur.prev.next := cur.next;
      } else {
        head := cur.next;
      }
      nodeCount := nodeCount - 1;
      adjustCount := adjustCount + 1;  // adjust()
      Nodes, Contents := N[..k] + N[k + 1..], RemoveAt(C, k);
      RemovedValid(N, C, k);
    }

    /** `clear()`: forgets every node. */
    method Clear()
      requires Valid()
      modifies this
      ensures Valid() && Contents == [] && adjustCount == old(adjustCount) + 1
    {
      head := null;
      tail := null;
      nodeCount := 0;
      adjustCount := adjustCount + 1;  // adjust()
      Nodes, Contents := [], [];
    }

    /** `newListFromCollection(Collection)`: a fresh chain of nodes holding
        the payloads of `c` in order, and its first node (`null` for an empty
        collection). */
    static method NewListFromCollection(c: seq<E>) returns (start: Node?<E>, ghost M: seq<Node<E>>)
      ensures |M| == |c| && Linked(M) && Distinct(M) && Holds(M, c)
      ensures forall i | 0 <= i < |M| :: fresh(M[i])
      ensures start == if c == [] then null else M[0]
      ensures M != [] ==> M[0].prev == null && M[|M| - 1].next == null
    {
      start := null;
      var cur: Node?<E> := null;
      M := [];
      for i := 0 to |c|
        invariant |M| == i && Linked(M) && Distinct(M) && Holds(M, c[..i])
        invariant forall p | 0 <= p < |M| :: fresh(M[p])
        invariant start == (if i == 0 then null else M[0])
        invariant cur == (if i == 0 then null else M[i - 1])
        invariant M != [] ==> M[0].prev == null && M[|M| - 1].next == null
      {
        var newNode := new Node(c[i]);
        assert newNode !in M && (cur != null ==> cur in M);
        forall j | 0 <= j < i - 1 ensures M[j] != cur {
          DistinctAt(M, j, i - 1);
        }
        if cur == null {
          start := newNode;
          cur := newNode;
        } else {
          cur.next := newNode;
          newNode.prev := cur;
          cur := newNode;
        }
        DistinctAppend(M, newNode);
        M := M + [newNode];
      }
    }

    /** `findEndOfSubList(Node)`: the last node of the chain `M` that starts
        at `start`, found by following `next`. */
    static method FindEndOfSubList(start: Node?<E>, ghost M: seq<Node<E>>) returns (r: Node?<E>)
      requires Linked(M) && start == (if M == [] then null else M[0])
      requires M != [] ==> M[|M| - 1].next == null
      ensures r == if M == [] then null else M[|M| - 1]
    {
      var cur := start;
      ghost var j := 0;
      while cur != null && cur.next != null
        invariant M != [] ==> 0 <= j < |M| && cur == M[j]
        invariant M == [] ==> cur == null
        decreases |M| - j
      {
        cur := cur.next;
        j := j + 1;
      }
      return cur;
    }

    /** `addAll(Collection)`: appends the payloads of `c` as one fresh chain;
        false, and no change at all, for an empty collection. */
    method AddAll(c: seq<E>) returns (r: bool)
      requires Valid()
      modifies this, Nodes
      ensures Valid() && Contents == old(Contents) + c
      ensures r <==> c != []
      ensures adjustCount == old(adjustCount) + (if r then 1 else 0)
      ensures !r ==> unchanged(this) && unchanged(Nodes)
      ensures forall i | 0 <= i < |Nodes| :: Nodes[i] in old(Nodes) || fresh(Nodes[i])
    {
      var newList;
      ghost var M;
      newList, M := NewListFromCollection(c);
      if newList == null {
        return false;
      }
      assert newList in M;
      LinkAtEnd(newList, M, c);
      return true;
    }

    /** The splice of `addAll(Collection)`: the chain `M`, starting at
        `start` and holding the collection `D`, goes after the tail. */
    method LinkAtEnd(start: Node<E>, ghost M: seq<Node<E>>, D: seq<E>)
      requires Valid() && M != [] && start == M[0]
      requires Linked(M) && Distinct(M) && Holds(M, D) && M[|M| - 1].next == null
      requires forall m | m in M :: m !in Nodes
      modifies this, Nodes, start
      ensures Valid() && Contents == old(Contents) + D
      ensures Nodes == old(Nodes) + M
      ensures adjustCount == old(adjustCount) + 1
    {
      ghost var N, C := Nodes, Contents;
      assert start !in N;
      forall j | 0 < j < |M| ensures M[j] != start {
        DistinctAt(M, j, 0);
      }
      assert 0 < |N| ==> N[|N| - 1] !in M;
      start.prev := tail;
      if tail == null {
        head := start;
      } else {
        tail.next := start;
      }
      tail := FindEndOfSubList(start, M);
      nodeCount := nodeCount + |D|;
      adjustCount := adjustCount + 1;  // adjust()
      Nodes, Contents := N + M, C + D;
      SplicedAtEnd(N, M);
      SplicedAtEnd(C, D);
      SplicedValid(N, C, |N|, M, D);
    }

    /** `addAll(int, Collection)`: inserts the payloads of `c` so that the
        first ends up at `index`; positions outside `0 .. size()` throw, and
        an empty collection changes nothing and gives false. */
    method AddAllAt(index: int, c: seq<E>) returns (r: Result<bool>)
      requires Valid()
      modifies this, Nodes
      ensures Valid()
      ensures r.Err? <==> !(0 <= index <= old(|Contents|))
      ensures r.Err? ==> r.exc == IndexOutOfBounds && unchanged(this) && unchanged(Nodes)
      ensures r.Ok? ==> && r.value == (c != [])
                        && Contents == old(Contents)[..index] + c + old(Contents)[index..]
                        && adjustCount == old(adjustCount) + (if r.value then 1 else 0)
      ensures r.Ok? && !r.value ==> unchanged(this) && unchanged(Nodes)
      ensures forall i | 0 <= i < |Nodes| :: Nodes[i] in old(Nodes) || fresh(Nodes[i])
    {
      var chk := CheckIndex(index, 1);
      if chk.Fail? {
        return Err(chk.exc);
      }
      if index == nodeCount {
        SplicedAtEnd(Contents, c);
        var b := AddAll(c);
        return Ok(b);
      }
      var newList;
      ghost var M;
      newList, M := NewListFromCollection(c);
      if newList == null {
        return Ok(false);
      }
      var cur := FindIndex(index);
      var end := FindEndOfSubList(newList, M);
      assert newList in M && end in M;
      SpliceBefore(cur, newList, end, index, M, c);
      return Ok(true);
    }

    /** The splice of `addAll(int, Collection)`: the chain `M`, from `start`
        to `end` and holding the collection `D`, goes in front of `cur`, the
        node at position `k`. */
    method SpliceBefore(cur: Node<E>, start: Node<E>, end: Node<E>, ghost k: int,
                        ghost M: seq<Node<E>>, D: seq<E>)
      requires Valid() && 0 <= k < |Nodes| && cur == Nodes[k]
      requires M != [] && start == M[0] && end == M[|M| - 1]
      requires Linked(M) && Distinct(M) && Holds(M, D)
      requires forall m | m in M :: m !in Nodes
      modifies this, Nodes, start, end
      ensures Valid()
      ensures Nodes == old(Nodes)[..k] + M + old(Nodes)[k..]
      ensures Contents == old(Contents)[..k] + D + old(Contents)[k..]
      ensures adjustCount == old(adjustCount) + 1
    {
      ghost var N, C := Nodes, Contents;
      forall i | 0 <= i < |N| && i != k ensures N[i] != cur {
        DistinctAt(N, i, k);
      }
      forall i | 0 < k && 0 <= i < |N| && i != k - 1 ensures N[i] != N[k - 1] {
        DistinctAt(N, i, k - 1);
      }
      forall j | 0 <= j < |M| - 1 ensures M[j] != end {
        DistinctAt(M, j, |M| - 1);
      }
      forall j | 0 < j < |M| ensures M[j] != start {
        DistinctAt(M, j, 0);
      }
      assert k > 0 ==> cur.prev == N[k - 1];
      assert cur !in M && (k > 0 ==> N[k - 1] !in M) && start !in N && end !in N;
      end.next := cur;
      if cur.prev != null {
        cur.prev.next := start;
      } else {
        head := start;
      }
      start.prev := cur.prev;
      cur.prev := end;
      nodeCount, adjustCount := nodeCount + |D|, adjustCount + 1;  // adjust()
      Nodes, Contents := N[..k] + M + N[k..], C[..k] + D + C[k..];
      SplicedValid(N, C, k, M, D);
    }

    /** `subListFromTail(int, int)`: a fresh list holding the payloads whose
        distance from the tail lies in `start .. stop`, collected while
        walking from the tail by prepending each one. */
    method SubListFromTail(start: int, stop: int) returns (out: DoubleLinkedList<E>)
      requires Valid() && 0 <= start <= stop < |Contents|
      ensures fresh(out) && out.Valid() && |out.Contents| == stop + 1 - start
      ensures forall p | 0 <= p < |out.Contents| :: out.Contents[p] == Contents[|Contents| - 1 - stop + p]
      ensures forall i | 0 <= i < |out.Nodes| :: fresh(out.Nodes[i])
    {
      ghost var N, C, n := Nodes, Contents, |Contents|;
      var cur := tail;
      out := new DoubleLinkedList();
      var index := 0;
      while cur != null && index <= stop  // `if (index > stop) break;` at the end of the body
        invariant 0 <= index <= n && index <= stop + 1
        invariant index <= stop ==> cur == N[n - 1 - index]
        invariant forall p {:trigger N[p].prev} | 0 < p < n :: N[p].prev == N[p - 1]
        invariant forall p {:trigger N[p].data} | 0 <= p < n :: N[p].data == C[p]
        invariant fresh(out) && out.Valid() && forall p | 0 <= p < |out.Nodes| :: fresh(out.Nodes[p])
        invariant |out.Contents| == if index <= start then 0 else index - start
        invariant forall p | 0 <= p < |out.Contents| :: out.Contents[p] == C[n - index + p]
        decreases n - index
      {
        assert cur.data == C[n - 1 - index];
        assert index < stop ==> cur.prev == N[n - 2 - index];
        if index >= start {
          out.AddFirst(cur.data);  // out.add(0, cur.data)
        }
        cur := cur.prev;
        index := index + 1;
      }
      assert index == stop + 1 && start < index && Contents == C;
    }

    /** `subList(int, int)`: a fresh list holding the payloads at positions
        `fromIndex` to `toIndex`, both included. Either bound outside
        `0 .. size() - 1` throws `IndexOutOfBoundsException`, and a
        `toIndex` below `fromIndex` throws `IllegalArgumentException`. The
        copy is taken from whichever end is nearer. */
    method SubList(fromIndex: int, toIndex: int) returns (r: Result<DoubleLinkedList<E>>)
      requires Valid()
      ensures r.Err? <==> !(0 <= fromIndex <= toIndex < |Contents|)
      ensures r.Err? ==> r.exc == if 0 <= fromIndex < |Contents| && 0 <= toIndex < |Contents|
                                  then IllegalArgument else IndexOutOfBounds
      ensures r.Ok? ==> && fresh(r.value) && r.value.Valid()
                        && r.value.Contents == Contents[fromIndex .. toIndex + 1]
                        && forall i | 0 <= i < |r.value.Nodes| :: fresh(r.value.Nodes[i])
    {
      var chk := CheckIndex(fromIndex, 0);
      if chk.Fail? {
        return Err(chk.exc);
      }
      chk := CheckIndex(toIndex, 0);
      if chk.Fail? {
        return Err(chk.exc);
      }
      if toIndex < fromIndex {
        return Err(IllegalArgument);
      }
      if nodeCount - toIndex <= fromIndex {
        var out := SubListFromTail(nodeCount - toIndex - 1, nodeCount - fromIndex - 1);
        return Ok(out);
      }
      var out := SubListFromHead(fromIndex, toIndex);
      return Ok(out);
    }

    /** The walk of `subList` from the head: a fresh list holding the
        payloads at positions `fromIndex` to `toIndex`, appended in order. */
    method SubListFromHead(fromIndex: int, toIndex: int) returns (out: DoubleLinkedList<E>)
      requires Valid() && 0 <= fromIndex <= toIndex < |Contents|
      ensures fresh(out) && out.Valid() && |out.Contents| == toIndex + 1 - fromIndex
      ensures forall p | 0 <= p < |out.Contents| :: out.Contents[p] == Contents[fromIndex + p]
      ensures forall i | 0 <= i < |out.Nodes| :: fresh(out.Nodes[i])
    {
      ghost var N, C, n := Nodes, Contents, |Contents|;
      var cur := head;
      out := new DoubleLinkedList();
      var index := 0;
      while cur != null && index <= toIndex  // `if (index > toIndex) break;` at the end of the body
        invariant 0 <= index <= n && index <= toIndex + 1
        invariant index <= toIndex ==> cur == N[index]
        invariant forall p {:trigger N[p].next} | 0 <= p < n - 1 :: N[p].next == N[p + 1]
        invariant forall p {:trigger N[p].data} | 0 <= p < n :: N[p].data == C[p]
        invariant fresh(out) && out.Valid() && forall p | 0 <= p < |out.Nodes| :: fresh(out.Nodes[p])
        invariant |out.Contents| == if index <= fromIndex then 0 else index - fromIndex
        invariant forall p | 0 <= p < |out.Contents| :: out.Contents[p] == C[fromIndex + p]
        decreases n - index
      {
        assert cur.data == C[index];
        assert index < toIndex ==> cur.next == N[index + 1];
        if index >= fromIndex {
          var _ := out.Add(cur.data);  // out.add(cur.data)
        }
        cur := cur.next;
        index := index + 1;
      }
      assert index == toIndex + 1 && fromIndex < index && Contents == C;
    }

    /** Every field of the list, and `next`, `prev` and `data` of every node
        of its chain, hold what they held in the earlier state. */
    twostate predicate FieldsAsBefore()
      reads this, Nodes
    {
      && head == old(head) && tail == old(tail)
      && nodeCount == old(nodeCount) && adjustCount == old(adjustCount)
      && Nodes == old(Nodes) && Contents == old(Contents)
      && forall k | 0 <= k < |Nodes| ::
           && Nodes[k].next == old(Nodes[k].next)
           && Nodes[k].prev == old(Nodes[k].prev)
           && Nodes[k].data == old(Nodes[k].data)
    }

    /** The link invariant fixes every field from `Nodes` and `Contents`, so
        a list that kept both, and `adjustCount`, kept all its fields. */
    twostate lemma SameChainSameFields()
      requires old(Valid()) && Valid()
      requires Nodes == old(Nodes) && Contents == old(Contents) && adjustCount == old(adjustCount)
      ensures FieldsAsBefore()
    {
      forall k | 0 <= k < |Nodes|
        ensures Nodes[k].next == old(Nodes[k].next) && Nodes[k].prev == old(Nodes[k].prev)
      {
        if k < |Nodes| - 1 {
          assert Nodes[k].next == Nodes[k + 1] == old(Nodes[k].next);
        }
        if 0 < k {
          assert Nodes[k].prev == Nodes[k - 1] == old(Nodes[k].prev);
        }
      }
    }

    /** The loop of `retainAll` (`keepMembers`) and `removeAll`
        (`!keepMembers`): unlinks every node whose payload's membership in
        `c` differs from `keepMembers`, counting the change once at the end. */
    method Sweep(c: set<E>, keepMembers: bool) returns (r: bool)
      requires Valid()
      modifies this, Nodes
      ensures Valid() && Contents == Filtered(old(Contents), c, keepMembers)
      ensures r <==> Contents != old(Contents)
      ensures adjustCount == old(adjustCount) + (if r then 1 else 0)
      ensures !r ==> FieldsAsBefore()
      ensures forall i | 0 <= i < |Nodes| :: Nodes[i] in old(Nodes) || fresh(Nodes[i])
    {
      ghost var C := Contents;
      r := SweepNodes(c, keepMembers);
      FilteredProperties(C, c, keepMembers);
      if r {
        adjustCount := adjustCount + 1;  // adjust()
      } else {
        SameChainSameFields();
      }
    }

    /** The walk of `Sweep`, without the final `adjust()`. */
    method SweepNodes(c: set<E>, keepMembers: bool) returns (changed: bool)
      requires Valid()
      modifies this, Nodes
      ensures Valid() && Contents == Filtered(old(Contents), c, keepMembers)
      ensures changed <==> |Contents| < |old(Contents)|
      ensures adjustCount == old(adjustCount)
      ensures !changed ==> Nodes == old(Nodes)
      ensures forall i | 0 <= i < |Nodes| :: Nodes[i] in old(Nodes)
    {
      ghost var N, C := Nodes, Contents;
      changed := false;
      var cur := head;
      ghost var i, j := 0, 0;
      while cur != null
        invariant Sweeping(N, C, i, j, cur, c, keepMembers)
        invariant changed <==> j < i
        invariant adjustCount == old(adjustCount)
        decreases |N| - i
      {
        var removed;
        removed, cur, j := SweepStep(cur, N, C, i, j, c, keepMembers);
        changed := changed || removed;
        i := i + 1;
      }
      SweptAll(Nodes, Contents, N, C, i, j, c, keepMembers);
    }

    /** The state of the walk of `Sweep` after `i` nodes of `N`, `j` of which
        were kept: the list is well formed, has been swept up to there,
        `cur` is the next node to visit, and while every node so far was
        kept the chain is still `N`. */
    ghost predicate Sweeping(N: seq<Node<E>>, C: seq<E>, i: int, j: int, cur: Node?<E>,
                             c: set<E>, keepMembers: bool)
      reads this, Nodes
    {
      && Valid()
      && Swept(Nodes, Contents, N, C, i, j, c, keepMembers)
      && (j == i ==> Nodes == N)
      && cur == if i < |N| then N[i] else null
    }

    /** One node of the walk of `Sweep`: unlinks `cur` when its payload's
        membership in `c` differs from `keepMembers`, and returns
        `cur.next`, which an unlinked node keeps. */
    method SweepStep(cur: Node<E>, ghost N: seq<Node<E>>, ghost C: seq<E>, ghost i: int, ghost j: int,
                     c: set<E>, keepMembers: bool) returns (removed: bool, next: Node?<E>, ghost j': int)
      requires Sweeping(N, C, i, j, cur, c, keepMembers)
      modifies this, Nodes
      ensures adjustCount == old(adjustCount)
      ensures removed <==> (C[i] in c) != keepMembers
      ensures j' == (if removed then j else j + 1) && Sweeping(N, C, i + 1, j', next, c, keepMembers)
    {
      assert Nodes[j] == cur && Contents[j] == C[i];
      assert cur.data == C[i];
      assert j + 1 < |Nodes| ==> cur.next == Nodes[j + 1];
      removed := (cur.data in c) != keepMembers;
      if removed {
        SweptDrop(Nodes, Contents, N, C, i, j, c, keepMembers);
        Unlink(cur, j);
        j' := j;
      } else {
        SweptKeep(Nodes, Contents, N, C, i, j, c, keepMembers);
        j' := j + 1;
      }
      next := cur.next;
    }

    /** `retainAll(Collection)`: keeps only the payloads that `c` contains. */
    method RetainAll(c: set<E>) returns (r: bool)
      requires Valid()
      modifies this, Nodes
      ensures Valid() && Contents == Filtered(old(Contents), c, true)
      ensures r <==> Contents != old(Contents)
      ensures adjustCount == old(adjustCount) + (if r then 1 else 0)
      ensures !r ==> FieldsAsBefore()
      ensures forall i | 0 <= i < |Nodes| :: Nodes[i] in old(Nodes) || fresh(Nodes[i])
    {
      r := Sweep(c, true);
    }

    /** `removeAll(Collection)`: drops every payload that `c` contains. */
    method RemoveAll(c: set<E>) returns (r: bool)
      requires Valid()
      modifies this, Nodes
      ensures Valid() && Contents == Filtered(old(Contents), c, false)
      ensures r <==> Contents != old(Contents)
      ensures adjustCount == old(adjustCount) + (if r then 1 else 0)
      ensures !r ==> FieldsAsBefore()
      ensures forall i | 0 <= i < |Nodes| :: Nodes[i] in old(Nodes) || fresh(Nodes[i])
    {
      r := Sweep(c, false);
    }

    /** `containsAll(Collection)`: `contains` for each element of `c` in
        turn, stopping at the first one missing. */
    method ContainsAll(c: seq<E>) returns (r: bool)
      requires Valid()
      ensures r <==> forall x | x in c :: x in Contents
    {
      for i := 0 to |c|
        invariant forall x | x in c[..i] :: x in Contents
      {
        var found := Contains(c[i]);
        if !found {
          return false;
        }
        assert c[..i + 1] == c[..i] + [c[i]];
      }
      assert c[..|c|] == c;
      return true;
    }

    /** `iterator()` and `listIterator()`: a cursor before the first
        payload. */
    method ListIterator() returns (it: LstIter<E>)
      requires Valid()
      ensures fresh(it) && it.list == this && it.Valid() && it.InSync()
      ensures it.index == 0 && it.expectedAdjustCount == adjustCount
    {
      it := new LstIter(this, 0);
    }

    /** `listIterator(int)`: a cursor before the payload at `index`;
        positions outside `0 .. size()` throw. */
    method ListIteratorAt(index: int) returns (r: Result<LstIter<E>>)
      requires Valid()
      ensures r.Err? <==> !(0 <= index <= |Contents|)
      ensures r.Err? ==> r.exc == IndexOutOfBounds
      ensures r.Ok? ==> && fresh(r.value) && r.value.list == this && r.value.Valid() && r.value.InSync()
                        && r.value.index == index && r.value.expectedAdjustCount == adjustCount
    {
      if index < 0 || index > nodeCount {
        return Err(IndexOutOfBounds);
      }
      var it := new LstIter(this, index);
      return Ok(it);
    }

    /** `descendingIterator()`: a cursor after the last payload that walks
        backwards. */
    method DescendingIterator() returns (it: DescIter<E>)
      requires Valid()
      ensures fresh(it) && fresh(it.iter) && it.iter.list == this && it.Valid() && it.iter.InSync()
      ensures it.iter.index == |Contents| && it.iter.expectedAdjustCount == adjustCount
    {
      it := new DescIter(this);
    }
  }

  /** The state of the walk of `retainAll`/`removeAll` over the nodes `N`
      holding `C`, now linked as `M` holding `D`: the first `i` nodes have
      been visited, and the `j` kept ones come first, followed by the
      unvisited ones. */
  ghost predicate Swept<E>(M: seq<Node<E>>, D: seq<E>, N: seq<Node<E>>, C: seq<E>, i: int, j: int,
                           c: set<E>, keepMembers: bool)
  {
    && 0 <= j <= i <= |N| == |C| && |M| == |D| == j + |N| - i
    && (forall p | j <= p < |M| :: M[p] == N[p + i - j])
    && (forall p | j <= p < |M| :: D[p] == C[p + i - j])
    && (forall p | 0 <= p < |M| :: M[p] in N)
    && D[..j] == FilteredPrefix(C, i, c, keepMembers)
  }

  /** Unlinking a visited node that is not kept advances the walk. */
  lemma SweptDrop<E>(M: seq<Node<E>>, D: seq<E>, N: seq<Node<E>>, C: seq<E>, i: int, j: int,
                     c: set<E>, keepMembers: bool)
    requires Swept(M, D, N, C, i, j, c, keepMembers) && i < |N| && (C[i] in c) != keepMembers
    ensures Swept(M[..j] + M[j + 1..], RemoveAt(D, j), N, C, i + 1, j, c, keepMembers)
  {
    assert RemoveAt(D, j)[..j] == D[..j];
  }

  /** Keeping a visited node advances the walk. */
  lemma SweptKeep<E>(M: seq<Node<E>>, D: seq<E>, N: seq<Node<E>>, C: seq<E>, i: int, j: int,
                     c: set<E>, keepMembers: bool)
    requires Swept(M, D, N, C, i, j, c, keepMembers) && i < |N| && (C[i] in c) == keepMembers
    ensures Swept(M, D, N, C, i + 1, j + 1, c, keepMembers)
  {
    assert D[..j + 1] == D[..j] + [D[j]];
  }

  /** A walk that has visited every node has filtered all of `C`. */
  lemma SweptAll<E>(M: seq<Node<E>>, D: seq<E>, N: seq<Node<E>>, C: seq<E>, i: int, j: int,
                    c: set<E>, keepMembers: bool)
    requires Swept(M, D, N, C, i, j, c, keepMembers) && i == |N|
    ensures D == Filtered(C, c, keepMembers) && |D| == j
    ensures forall p | 0 <= p < |M| :: M[p] in N
  {
    assert D == D[..j] && C[..|C|] == C;
    FilteredPrefixTake(C, |C|, c, keepMembers);
  }

  /** A fail-fast cursor over `list`, standing before `nextNode`, the node at
      position `index` (`null` at the end). It is in step with the list while
      `expectedAdjustCount` equals the list's change count; every other
      change of the list makes it stale, and a stale cursor throws. */
  class LstIter<E(==)> {
    const list: DoubleLinkedList<E>
    var nextNode: Node?<E>
    var index: int
    var expectedAdjustCount: int

    /** The list is well formed, and a cursor that is not stale stands at a
        position of it. */
    ghost predicate Valid()
      reads this, list, list.Nodes
    {
      list.Valid() && (!Stale() ==> InSync())
    }

    /** The list changed since the cursor last looked (`checkValidState`). */
    predicate Stale()
      reads this, list
    {
      list.adjustCount != expectedAdjustCount
    }

    /** `nextNode` is the node at position `index`. */
    ghost predicate InSync()
      reads this, list
    {
      0 <= index <= |list.Nodes| && nextNode == if index < |list.Nodes| then list.Nodes[index] else null
    }

    /** `checkValidState()`: fails with `ConcurrentModification` exactly when
        the list changed since the cursor last looked; when it passes, the
        cursor stands at a position of the list. */
    function CheckValidState(): (r: Outcome)
      reads this, list, list.Nodes
      requires Valid()
      ensures r.Fail? <==> Stale()
      ensures r.Fail? ==> r.exc == ConcurrentModification
      ensures r.Pass? ==> InSync() && 0 <= index <= |list.Contents|
    {
      if list.adjustCount != expectedAdjustCount then Fail(ConcurrentModification) else Pass
    }

    /** `new LstIter(int)` for a valid position: walks from the tail when
        `index` is in the upper half and from the head otherwise. */
    constructor (list: DoubleLinkedList<E>, index: int)
      requires list.Valid() && 0 <= index <= |list.Contents|
      ensures this.list == list && Valid() && InSync() && !Stale()
      ensures this.index == index && expectedAdjustCount == list.adjustCount
    {
      ghost var N := list.Nodes;
      var i := list.nodeCount;
      var cur: Node?<E> := null;
      if index != list.nodeCount {
        if index >= list.nodeCount / 2 {
          while i > index
            invariant index <= i <= |N|
            invariant cur == if i < |N| then N[i] else null
          {
            assert i < |N| ==> cur.prev == N[i - 1];
            cur := if cur == null then list.tail else cur.prev;
            i := i - 1;
          }
        } else {
          i := 0;
          cur := list.head;
          while i < index
            invariant 0 <= i <= index
            invariant cur == N[i]
          {
            cur := cur.next;
            i := i + 1;
          }
        }
      }
      this.list := list;
      nextNode := cur;
      this.index := i;
      expectedAdjustCount := list.adjustCount;
    }

    /** `hasNext()`: a payload follows the cursor. */
    function HasNext(): (r: bool)
      reads this, list, list.Nodes
      requires Valid()
      ensures !Stale() ==> (r <==> index < |list.Contents|)
    {
      index < list.nodeCount
    }

    /** `hasPrevious()`: a payload precedes the cursor. */
    function HasPrevious(): (r: bool)
      reads this, list, list.Nodes
      requires Valid()
      ensures !Stale() ==> (r <==> 0 < index)
    {
      index > 0
    }

    /** `nextIndex()`: the position of the payload `next()` would return. */
    function NextIndex(): (r: int)
      reads this, list, list.Nodes
      requires Valid()
      ensures !Stale() ==> 0 <= r <= |list.Contents|
      ensures !Stale() ==> nextNode == if r < |list.Nodes| then list.Nodes[r] else null
    {
      index
    }

    /** `previousIndex()`: the position of the payload `previous()` would
        return. */
    function PreviousIndex(): (r: int)
      reads this, list, list.Nodes
      requires Valid()
      ensures !Stale() ==> -1 <= r < |list.Contents| && NextIndex() == r + 1
      ensures !Stale() && 0 <= r ==> list.Nodes[r] == if nextNode == null then list.tail else nextNode.prev
    {
      index - 1
    }

    /** `next()`: returns the payload after the cursor and steps over it. */
    method Next() returns (r: Result<E>)
      requires Valid()
      modifies this
      ensures Valid() && expectedAdjustCount == old(expectedAdjustCount)
      ensures old(Stale()) ==> r == Err(ConcurrentModification) && unchanged(this)
      ensures !old(Stale()) && old(index) == |list.Contents| ==> r == Err(NoSuchElement) && unchanged(this)
      ensures !old(Stale()) && old(index) < |list.Contents| ==> r == Ok(list.Contents[old(index)]) && index == old(index) + 1
    {
      if CheckValidState().Fail? {
        return Err(ConcurrentModification);
      }
      if index == list.nodeCount {
        return Err(NoSuchElement);
      }
      assert index + 1 < |list.Nodes| ==> nextNode.next == list.Nodes[index + 1];
      var data := nextNode.data;
      nextNode := nextNode.next;
      index := index + 1;
      return Ok(data);
    }

    /** `previous()`: steps back over the payload before the cursor and
        returns it. */
    method Previous() returns (r: Result<E>)
      requires Valid()
      modifies this
      ensures Valid() && expectedAdjustCount == old(expectedAdjustCount)
      ensures old(Stale()) ==> r == Err(ConcurrentModification) && unchanged(this)
      ensures !old(Stale()) && old(index) == 0 ==> r == Err(NoSuchElement) && unchanged(this)
      ensures !old(Stale()) && 0 < old(index) ==> r == Ok(list.Contents[old(index) - 1]) && index == old(index) - 1
    {
      if CheckValidState().Fail? {
        return Err(ConcurrentModification);
      }
      if index == 0 {
        return Err(NoSuchElement);
      }
      assert index < |list.Nodes| ==> nextNode.prev == list.Nodes[index - 1];
      if nextNode == null {
        nextNode := list.tail;
      } else {
        nextNode := nextNode.prev;
      }
      index := index - 1;
      return Ok(nextNode.data);
    }

    /** `remove()`: unlinks the node the cursor stands before, which the
        cursor then stands before the successor of; the position does not
        change. At the end of the list there is no such node and the
        dereference throws. */
    method Remove() returns (r: Outcome)
      requires Valid()
      modifies this, list, list.Nodes
      ensures Valid()
      ensures old(Stale()) ==> r == Fail(ConcurrentModification) && unchanged(this) && unchanged(list)
      ensures !old(Stale()) && old(index) == old(|list.Contents|) ==> r == Fail(NullPointer) && unchanged(this) && unchanged(list)
      ensures !old(Stale()) && old(index) < old(|list.Contents|) ==>
                && r == Pass && !Stale() && index == old(index)
                && list.Contents == RemoveAt(old(list.Contents), index)
                && list.adjustCount == old(list.adjustCount) + 1
    {
      if CheckValidState().Fail? {
        return Fail(ConcurrentModification);
      }
      if nextNode == null {
        return Fail(NullPointer);
      }
      var node := nextNode;
      list.RemoveNode(node, index);
      nextNode := node.next;
      expectedAdjustCount := expectedAdjustCount + 1;
      return Pass;
    }

    /** `set(Object)`: replaces the payload after the cursor (not the one
        last returned); at the end of the list it throws. */
    method Set(o: E) returns (r: Outcome)
      requires Valid()
      modifies this, list, nextNode
      ensures Valid()
      ensures old(Stale()) ==> r == Fail(ConcurrentModification) && unchanged(this) && unchanged(list)
      ensures !old(Stale()) && old(index) == old(|list.Contents|) ==> r == Fail(IndexOutOfBounds) && unchanged(this) && unchanged(list)
      ensures !old(Stale()) && old(index) < old(|list.Contents|) ==>
                && r == Pass && !Stale() && index == old(index)
                && list.Contents == old(list.Contents)[index := o]
                && list.adjustCount == old(list.adjustCount) + 1
    {
      if CheckValidState().Fail? {
        return Fail(ConcurrentModification);
      }
      if index == list.nodeCount {
        return Fail(IndexOutOfBounds);
      }
      list.Adjust();
      expectedAdjustCount := expectedAdjustCount + 1;
      list.Overwrite(nextNode, index, o);
      return Pass;
    }

    /** `add(Object)`: inserts `o` before the cursor and steps over it. */
    method Add(o: E) returns (r: Outcome)
      requires Valid()
      modifies this, list, list.Nodes
      ensures Valid()
      ensures old(Stale()) ==> r == Fail(ConcurrentModification) && unchanged(this) && unchanged(list)
      ensures !old(Stale()) ==>
                && r == Pass && !Stale() && index == old(index) + 1
                && list.Contents == InsertAt(old(list.Contents), old(index), o)
                && list.adjustCount == old(list.adjustCount) + 1
    {
      if CheckValidState().Fail? {
        return Fail(ConcurrentModification);
      }
      ghost var k := index;
      index := index + 1;
      expectedAdjustCount := expectedAdjustCount + 1;
      list.InsertBefore(nextNode, o, k);
      return Pass;
    }
  }

  /** `descendingIterator()`'s cursor: a `LstIter` opened after the last
      payload and driven backwards. */
  class DescIter<E(==)> {
    const iter: LstIter<E>

    ghost predicate Valid()
      reads this, iter, iter.list, iter.list.Nodes
    {
      iter.Valid()
    }

    constructor (list: DoubleLinkedList<E>)
      requires list.Valid()
      ensures fresh(iter) && iter.list == list && Valid() && iter.InSync() && !iter.Stale()
      ensures iter.index == |list.Contents| && iter.expectedAdjustCount == list.adjustCount
    {
      iter := new LstIter(list, list.nodeCount);
    }

    /** `hasNext()`: a payload precedes the cursor. */
    function HasNext(): (r: bool)
      reads this, iter, iter.list, iter.list.Nodes
      requires Valid()
      ensures !iter.Stale() ==> (r <==> 0 < iter.index)
    {
      iter.HasPrevious()
    }

    /** `next()`: `previous()` of the underlying cursor. */
    method Next() returns (r: Result<E>)
      requires Valid()
      modifies iter
      ensures Valid() && iter.expectedAdjustCount == old(iter.expectedAdjustCount)
      ensures old(iter.Stale()) ==> r == Err(ConcurrentModification) && unchanged(iter)
      ensures !old(iter.Stale()) && old(iter.index) == 0 ==> r == Err(NoSuchElement) && unchanged(iter)
      ensures !old(iter.Stale()) && 0 < old(iter.index) ==>
                r == Ok(iter.list.Contents[old(iter.index) - 1]) && iter.index == old(iter.index) - 1
    {
      r := iter.Previous();
    }

    /** `remove()`: `remove()` of the underlying cursor, which unlinks the
        payload at the cursor. Right after `next()` that is the payload it
        returned; before any `next()` the cursor is past the last payload
        and the call fails with `NullPointer`. */
    method Remove() returns (r: Outcome)
      requires Valid()
      modifies iter, iter.list, iter.list.Nodes
      ensures Valid()
      ensures old(iter.Stale()) ==> r == Fail(ConcurrentModification) && unchanged(iter) && unchanged(iter.list)
      ensures !old(iter.Stale()) && old(iter.index) == old(|iter.list.Contents|) ==>
                r == Fail(NullPointer) && unchanged(iter) && unchanged(iter.list)
      ensures !old(iter.Stale()) && old(iter.index) < old(|iter.list.Contents|) ==>
                && r == Pass && !iter.Stale() && iter.index == old(iter.index)
                && iter.list.Contents == RemoveAt(old(iter.list.Contents), iter.index)
                && iter.list.adjustCount == old(iter.list.adjustCount) + 1
    {
      r := iter.Remove();
    }
  }
}

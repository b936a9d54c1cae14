/** The value-level meaning of the `java.util.List` operations that the list
    and the cache use: searching by value, removing by position or value. */
module Seqs {

  /** The set of elements of `s`. */
  ghost function Elems<T>(s: seq<T>): set<T> {
    set x | x in s
  }

  /** No element of `s` occurs twice. */
  ghost predicate NoDup<T>(s: seq<T>) {
    forall i, j | 0 <= i < j < |s| :: s[i] != s[j]
  }

  /** No element of `s` occurs twice, stated one element at a time: the
      first element does not occur again, and the same holds of the rest. */
  ghost predicate Distinct<T>(s: seq<T>) {
    |s| == 0 || (s[0] !in s[1..] && Distinct(s[1..]))
  }

  /** The two statements of duplicate-freedom agree. */
  lemma {:induction false} DistinctNoDup<T>(s: seq<T>)
    ensures Distinct(s) <==> NoDup(s)
  {
    if |s| > 0 {
      DistinctNoDup(s[1..]);
      if NoDup(s) {
        assert NoDup(s[1..]) by {
          forall i, j | 0 <= i < j < |s| - 1 ensures s[1..][i] != s[1..][j] {
            assert s[1..][i] == s[i + 1] && s[1..][j] == s[j + 1];
          }
        }
      }
      if Distinct(s) {
        forall i, j | 0 <= i < j < |s| ensures s[i] != s[j] {
          if i == 0 {
            assert s[j] == s[1..][j - 1];
          } else {
            assert s[i] == s[1..][i - 1] && s[j] == s[1..][j - 1];
          }
        }
      }
    }
  }

  /** Two different positions of a duplicate-free sequence hold different
      elements. */
  lemma DistinctAt<T>(s: seq<T>, i: int, j: int)
    requires Distinct(s) && 0 <= i < |s| && 0 <= j < |s| && i != j
    ensures s[i] != s[j]
  {
    DistinctNoDup(s);
  }

  /** Index of the first element equal to `x`, or -1 (`List.indexOf`). */
  function IndexOf<T(==)>(s: seq<T>, x: T): (r: int)
    ensures -1 <= r < |s|
    ensures r == -1 <==> x !in s
    ensures 0 <= r ==> s[r] == x && x !in s[..r]
  {
    if |s| == 0 then -1
    else if s[0] == x then 0
    else
      var k := IndexOf(s[1..], x);
      if k == -1 then -1
      else
        assert s[..k + 1] == [s[0]] + s[1..][..k];
        k + 1
  }

  /** Index of the last element equal to `x`, or -1 (`List.lastIndexOf`). */
  function LastIndexOf<T(==)>(s: seq<T>, x: T): (r: int)
    ensures -1 <= r < |s|
    ensures r == -1 <==> x !in s
    ensures 0 <= r ==> s[r] == x && x !in s[r + 1..]
  {
    if |s| == 0 then -1
    else if s[|s| - 1] == x then |s| - 1
    else
      var k := LastIndexOf(s[..|s| - 1], x);
      assert x in s[..|s| - 1] <==> x in s by {
        assert s == s[..|s| - 1] + [s[|s| - 1]];
      }
      if k == -1 then -1
      else
        assert s[k + 1..] == s[..|s| - 1][k + 1..] + [s[|s| - 1]];
        k
  }

  /** A position holding `x` with no `x` before it is the one `IndexOf`
      finds. */
  lemma IndexOfUnique<T>(s: seq<T>, x: T, k: int)
    requires 0 <= k < |s| && s[k] == x && x !in s[..k]
    ensures IndexOf(s, x) == k
  {
    assert forall i | 0 <= i < k :: s[i] == s[..k][i];
  }

  /** A position holding `x` with no `x` after it is the one `LastIndexOf`
      finds. */
  lemma LastIndexOfUnique<T>(s: seq<T>, x: T, k: int)
    requires 0 <= k < |s| && s[k] == x && x !in s[k + 1..]
    ensures LastIndexOf(s, x) == k
  {
    assert forall i | k < i < |s| :: s[i] == s[k + 1..][i - k - 1];
  }

  /** `s` without its element at position `k` (`List.remove(int)`). */
  function RemoveAt<T>(s: seq<T>, k: int): (r: seq<T>)
    requires 0 <= k < |s|
  {
    s[..k] + s[k + 1..]
  }

  /** `s` with `x` inserted so that it ends up at position `k`
      (`List.add(int, E)`). */
  function InsertAt<T>(s: seq<T>, k: int, x: T): (r: seq<T>)
    requires 0 <= k <= |s|
  {
    s[..k] + [x] + s[k..]
  }

  /** `s` without the first element equal to `x`, if any
      (`List.remove(Object)`). */
  function RemoveFirstOccurrence<T(==)>(s: seq<T>, x: T): (r: seq<T>)
  {
    var k := IndexOf(s, x);
    if k < 0 then s else RemoveAt(s, k)
  }

  /** `s` without the last element equal to `x`, if any. */
  function RemoveLastOccurrence<T(==)>(s: seq<T>, x: T): (r: seq<T>)
  {
    var k := LastIndexOf(s, x);
    if k < 0 then s else RemoveAt(s, k)
  }

  /** Removing the first occurrence removes exactly one copy of `x` when there
      is one, and nothing otherwise. */
  lemma RemoveFirstOccurrenceCounts<T>(s: seq<T>, x: T)
    ensures multiset(RemoveFirstOccurrence(s, x)) == multiset(s) - multiset{x}
    ensures |RemoveFirstOccurrence(s, x)| == if x in s then |s| - 1 else |s|
  {
    var k := IndexOf(s, x);
    if 0 <= k {
      assert s == s[..k] + [s[k]] + s[k + 1..];
    }
  }

  /** Removing the first occurrence from a duplicate-free sequence keeps it
      duplicate-free and takes away exactly `x`. */
  lemma NoDupRemoveFirstOccurrence<T>(s: seq<T>, x: T)
    requires NoDup(s)
    ensures NoDup(RemoveFirstOccurrence(s, x))
    ensures Elems(RemoveFirstOccurrence(s, x)) == Elems(s) - {x}
  {
    var k := IndexOf(s, x);
    if 0 <= k {
      var r := RemoveAt(s, k);
      forall y | y in Elems(r) ensures y in Elems(s) - {x} {
        var i :| 0 <= i < |r| && r[i] == y;
        if i < k { assert r[i] == s[i]; } else { assert r[i] == s[i + 1]; }
      }
      forall y | y in Elems(s) - {x} ensures y in Elems(r) {
        var i :| 0 <= i < |s| && s[i] == y;
        if i < k { assert r[i] == y; } else { assert r[i - 1] == y; }
      }
    }
  }

  /** Dropping the last element of a duplicate-free sequence removes exactly
      that element. */
  lemma NoDupDropLast<T>(s: seq<T>)
    requires NoDup(s) && |s| > 0
    ensures NoDup(s[..|s| - 1])
    ensures Elems(s[..|s| - 1]) == Elems(s) - {s[|s| - 1]}
  {
    assert s == s[..|s| - 1] + [s[|s| - 1]];
  }

  /** A duplicate-free sequence has as many elements as its set. */
  lemma {:induction false} NoDupCard<T>(s: seq<T>)
    requires NoDup(s)
    ensures |Elems(s)| == |s|
  {
    if |s| > 0 {
      NoDupCard(s[1..]);
      assert Elems(s) == {s[0]} + Elems(s[1..]);
      assert s[0] !in Elems(s[1..]);
    }
  }

  /** Putting a duplicate-free `m` that shares nothing with `s` into a
      duplicate-free `s` keeps it duplicate-free. */
  lemma NoDupSplice<T>(s: seq<T>, k: int, m: seq<T>)
    requires NoDup(s) && NoDup(m) && 0 <= k <= |s|
    requires forall x | x in m :: x !in s
    ensures NoDup(s[..k] + m + s[k..])
  {
    var r := s[..k] + m + s[k..];
    forall i, j | 0 <= i < j < |r| ensures r[i] != r[j] {
      if i < k && j >= k + |m| {
        assert r[i] == s[i] && r[j] == s[j - |m|];
      } else if i < k && j >= k {
        assert r[i] in s && r[j] in m;
      } else if k <= i < k + |m| && j >= k + |m| {
        assert r[i] in m && r[j] in s;
      } else if j < k {
        assert r[i] == s[i] && r[j] == s[j];
      } else if k + |m| <= i {
        assert r[i] == s[i - |m|] && r[j] == s[j - |m|];
      } else {
        assert r[i] == m[i - k] && r[j] == m[j - k];
      }
    }
  }

  /** The first and last elements after putting a non-empty `m` into `s`
      at `k`. */
  lemma SpliceEnds<T>(s: seq<T>, k: int, m: seq<T>)
    requires 0 <= k <= |s| && m != []
    ensures var r := s[..k] + m + s[k..];
      && r[0] == (if k == 0 then m[0] else s[0])
      && r[|r| - 1] == (if k == |s| then m[|m| - 1] else s[|s| - 1])
  {
  }

  /** Taking one element out of a duplicate-free sequence keeps it
      duplicate-free, and the element taken out no longer occurs. */
  lemma NoDupRemoveAt<T>(s: seq<T>, k: int)
    requires NoDup(s) && 0 <= k < |s|
    ensures NoDup(RemoveAt(s, k)) && s[k] !in RemoveAt(s, k)
  {
    var r := RemoveAt(s, k);
    forall i | 0 <= i < |r| ensures r[i] == (if i < k then s[i] else s[i + 1]) && r[i] != s[k] {
    }
  }

  /** Appending an element that does not occur keeps a sequence
      duplicate-free. */
  lemma DistinctAppend<T>(s: seq<T>, x: T)
    requires Distinct(s) && x !in s
    ensures Distinct(s + [x])
  {
    DistinctNoDup(s);
    DistinctNoDup(s + [x]);
  }

  /** The elements `x` of `s`, in order, for which `x in c` is
      `keepMembers` (`retainAll` keeps the members of `c`, `removeAll` the
      others). */
  function Filtered<T>(s: seq<T>, c: set<T>, keepMembers: bool): (r: seq<T>)
  {
    if s == [] then []
    else
      var last := s[|s| - 1];
      Filtered(s[..|s| - 1], c, keepMembers) + (if (last in c) == keepMembers then [last] else [])
  }

  /** `Filtered` of the first `n` elements of `s`, counted by position. */
  function FilteredPrefix<T>(s: seq<T>, n: int, c: set<T>, keepMembers: bool): (r: seq<T>)
    requires 0 <= n <= |s|
  {
    if n == 0 then []
    else FilteredPrefix(s, n - 1, c, keepMembers) + (if (s[n - 1] in c) == keepMembers then [s[n - 1]] else [])
  }

  /** Filtering by position agrees with filtering the prefix. */
  lemma {:induction false} FilteredPrefixTake<T>(s: seq<T>, n: int, c: set<T>, keepMembers: bool)
    requires 0 <= n <= |s|
    ensures FilteredPrefix(s, n, c, keepMembers) == Filtered(s[..n], c, keepMembers)
  {
    if n > 0 {
      FilteredPrefixTake(s, n - 1, c, keepMembers);
      assert s[..n][..n - 1] == s[..n - 1];
    }
  }

  /** What filtering keeps: exactly the elements of `s` whose membership in
      `c` is `keepMembers`, and the whole of `s` when that holds of all of
      them (so the result differs from `s` exactly when something was
      dropped). */
  lemma {:induction false} FilteredProperties<T>(s: seq<T>, c: set<T>, keepMembers: bool)
    ensures |Filtered(s, c, keepMembers)| <= |s|
    ensures forall x | x in Filtered(s, c, keepMembers) :: x in s && (x in c) == keepMembers
    ensures forall x | x in s && (x in c) == keepMembers :: x in Filtered(s, c, keepMembers)
    ensures |Filtered(s, c, keepMembers)| == |s| <==> forall x | x in s :: (x in c) == keepMembers
    ensures |Filtered(s, c, keepMembers)| == |s| ==> Filtered(s, c, keepMembers) == s
  {
    if s != [] {
      var init, last := s[..|s| - 1], s[|s| - 1];
      assert s == init + [last];
      FilteredProperties(init, c, keepMembers);
    }
  }

  /** `s` back to front. */
  function Reversed<T>(s: seq<T>): seq<T>
  {
    if s == [] then [] else [s[|s| - 1]] + Reversed(s[..|s| - 1])
  }

  lemma {:induction false} ReversedLength<T>(s: seq<T>)
    ensures |Reversed(s)| == |s|
    ensures forall i | 0 <= i < |s| :: Reversed(s)[i] == s[|s| - 1 - i]
  {
    if s != [] {
      ReversedLength(s[..|s| - 1]);
    }
  }

  lemma {:induction false} ReversedTwice<T>(s: seq<T>)
    ensures Reversed(Reversed(s)) == s
  {
    ReversedLength(s);
    ReversedLength(Reversed(s));
  }
}

/** The searches of `removeFirstOccurrence(Object)` and
    `removeLastOccurrence(Object)` exactly as written, on payloads that may be
    `null` (`None`). Their test `(o == null && cur.data == null) ||
    cur.data.equals(o)` calls `equals` on a `null` payload whenever `o` is
    not `null`, so the search throws `NullPointerException` as soon as it
    meets a `null` payload before a match. The other searches of the list
    (`contains`, `indexOf`, `lastIndexOf`, `remove(Object)`) test only
    `o == null` first and throw the same way. The list model compares
    payloads with a total equality, which gives what the `java.util.List`
    and `java.util.Deque` contracts promise for these methods. */
module NullScan {
  import opened Wrappers
  import opened Seqs

  /** The test of the two searches on one payload `d`: whether it matches
      `o`, or the exception that `d.equals(o)` throws when `d` is `null`. */
  function MatchesAsWritten<T(==)>(d: Option<T>, o: Option<T>): (r: Result<bool>)
    ensures r.Err? <==> d.None? && o.Some?
    ensures r.Err? ==> r.exc == NullPointer
    ensures r.Ok? ==> r.value == (d == o)
  {
    if o.None? && d.None? then Ok(true)
    else if d.None? then Err(NullPointer)
    else Ok(d == o)
  }

  /** The walk of `removeFirstOccurrence` from the head: the position of the
      first payload whose test holds, -1 when there is none, or the first
      exception a test throws. */
  function ScanFromHeadAsWritten<T(==)>(s: seq<Option<T>>, o: Option<T>): (r: Result<int>)
    ensures r.Err? ==> r.exc == NullPointer && o.Some? && None in s
    ensures r.Ok? ==> -1 <= r.value < |s| && (0 <= r.value ==> s[r.value] == o)
    ensures r == Ok(-1) ==> o !in s
  {
    if s == [] then Ok(-1)
    else
      match MatchesAsWritten(s[0], o)
      case Err(e) => Err(e)
      case Ok(true) => Ok(0)
      case Ok(false) =>
        match ScanFromHeadAsWritten(s[1..], o)
        case Err(e) => Err(e)
        case Ok(k) => Ok(if k < 0 then -1 else k + 1)
  }

  /** The walk of `removeLastOccurrence` from the tail. */
  function ScanFromTailAsWritten<T(==)>(s: seq<Option<T>>, o: Option<T>): (r: Result<int>)
    ensures r.Err? ==> r.exc == NullPointer && o.Some? && None in s
    ensures r.Ok? ==> -1 <= r.value < |s| && (0 <= r.value ==> s[r.value] == o)
    ensures r == Ok(-1) ==> o !in s
  {
    if s == [] then Ok(-1)
    else
      match MatchesAsWritten(s[|s| - 1], o)
      case Err(e) => Err(e)
      case Ok(true) => Ok(|s| - 1)
      case Ok(false) => ScanFromTailAsWritten(s[..|s| - 1], o)
  }

  /** How far the walk from the head gets: up to the first `o`, or the
      whole sequence. */
  function HeadStop<T(==)>(s: seq<T>, x: T): (r: int)
    ensures 0 <= r <= |s|
  {
    if x in s then IndexOf(s, x) else |s|
  }

  /** How far back the walk from the tail gets: down to the last `o`, or
      the whole sequence. */
  function TailStop<T(==)>(s: seq<T>, x: T): (r: int)
    ensures -1 <= r < |s|
  {
    if x in s then LastIndexOf(s, x) else -1
  }

  /** The search from the head as written finds what `IndexOf` finds, except
      that it throws exactly when `o` is not `null` and a `null` payload
      comes before the first `o` (or anywhere, when there is no `o`). */
  lemma {:induction false} ScanFromHeadMeaning<T>(s: seq<Option<T>>, o: Option<T>)
    ensures ScanFromHeadAsWritten(s, o) ==
            if o.Some? && None in s[..HeadStop(s, o)] then Err(NullPointer) else Ok(IndexOf(s, o))
  {
    if s != [] && s[0] != o && s[0].Some? {
      var t := s[1..];
      ScanFromHeadMeaning(t, o);
      assert o in s <==> o in t by {
        assert s == [s[0]] + t;
      }
      assert s[..HeadStop(s, o)] == [s[0]] + t[..HeadStop(t, o)];
    } else if s != [] && s[0] != o {
      assert s[..HeadStop(s, o)][0] == None;
    }
  }

  /** The search from the tail as written finds what `LastIndexOf` finds,
      except that it throws exactly when `o` is not `null` and a `null`
      payload comes after the last `o`. */
  lemma {:induction false} ScanFromTailMeaning<T>(s: seq<Option<T>>, o: Option<T>)
    ensures ScanFromTailAsWritten(s, o) ==
            if o.Some? && None in s[TailStop(s, o) + 1..] then Err(NullPointer) else Ok(LastIndexOf(s, o))
  {
    if s != [] && s[|s| - 1] != o && s[|s| - 1].Some? {
      var t := s[..|s| - 1];
      ScanFromTailMeaning(t, o);
      assert o in s <==> o in t by {
        assert s == t + [s[|s| - 1]];
      }
      assert s[TailStop(s, o) + 1..] == t[TailStop(t, o) + 1..] + [s[|s| - 1]];
    } else if s != [] && s[|s| - 1] != o {
      assert s[TailStop(s, o) + 1..][|s| - 1 - (TailStop(s, o) + 1)] == None;
    }
  }

  /** A list holding `null` and then `1`: `removeFirstOccurrence(1)` as
      written throws, where the intended result is the list holding only
      `null`. */
  lemma RemoveFirstOccurrenceThrows()
    ensures ScanFromHeadAsWritten([None, Some(1)], Some(1)) == Err(NullPointer)
    ensures RemoveFirstOccurrence([None, Some(1)], Some(1)) == [None]
  {
    ScanFromHeadMeaning([None, Some(1)], Some(1));
    assert IndexOf([None, Some(1)], Some(1)) == 1;
  }

  /** A list holding `1` and then `null`: `removeLastOccurrence(1)` as
      written throws, where the intended result is the list holding only
      `null`. */
  lemma RemoveLastOccurrenceThrows()
    ensures ScanFromTailAsWritten([Some(1), None], Some(1)) == Err(NullPointer)
    ensures RemoveLastOccurrence([Some(1), None], Some(1)) == [None]
  {
    ScanFromTailMeaning([Some(1), None], Some(1));
    assert LastIndexOf([Some(1), None], Some(1)) == 0;
  }
}

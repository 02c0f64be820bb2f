/** ConcurrentUnboundedOrderedSet, every operation taken as atomic.

    Concrete state, as in the class: a membership index from element to its
    current entry, and a deque of entries appended at the tail. An entry is
    never moved; moving or removing an element flags its old entry `removed`
    and traversals skip it. Entries are identified by their position in the
    append-only `entries` heap, which stands for Java object identity; the
    deque holds those identities.

    The abstraction `Abs` is exactly what `toList()` reports: the deque's
    entries that are not flagged and are still the index's current entry for
    their value. Every operation is proved to keep `Valid` and to act on `Abs`
    as the matching operation on a duplicate-free sequence. */
module OrderedSet {
  import opened Wrappers
  import opened OrderedSeq

  datatype Entry<E> = Entry(value: E, removed: bool)

  datatype Rep<E> = Rep(index: map<E, nat>, entries: seq<Entry<E>>, deque: seq<nat>)

  datatype SetError = NegativeCount(num: int)

  predicate Allocated<E(!new)>(r: Rep<E>, ids: seq<nat>) {
    forall k :: 0 <= k < |ids| ==> ids[k] < |r.entries|
  }

  /** The entry `id` is the one the index currently holds for its value. */
  predicate IsCurrent<E(!new)>(r: Rep<E>, id: nat)
    requires id < |r.entries|
  {
    var en := r.entries[id];
    !en.removed && en.value in r.index && r.index[en.value] == id
  }

  /** Representation invariant: every deque entry is allocated and queued
      once; the index points only at queued, unflagged entries holding the
      element it is keyed by; an unflagged queued entry is current. So a
      queued entry is live exactly when the index points to it. */
  predicate Valid<E(!new)>(r: Rep<E>) {
    && Allocated(r, r.deque)
    && NoDups(r.deque)
    && (forall e :: e in r.index ==>
          && r.index[e] < |r.entries|
          && r.entries[r.index[e]] == Entry(e, false)
          && r.index[e] in r.deque)
    && (forall k :: 0 <= k < |r.deque| && !r.entries[r.deque[k]].removed ==> IsCurrent(r, r.deque[k]))
  }

  /** The values of the current entries among `ids`, in order. */
  function Listed<E(!new)>(r: Rep<E>, ids: seq<nat>): seq<E>
    requires Allocated(r, ids)
  {
    if ids == [] then []
    else (if IsCurrent(r, ids[0]) then [r.entries[ids[0]].value] else []) + Listed(r, ids[1..])
  }

  /** The abstract sequence, oldest first. */
  function Abs<E(!new)>(r: Rep<E>): seq<E>
    requires Allocated(r, r.deque)
  {
    Listed(r, r.deque)
  }

  // ---------------------------------------------------------------------
  // Lemmas about the abstraction
  // ---------------------------------------------------------------------

  lemma {:induction false} ListedAppend<E(!new)>(r: Rep<E>, a: seq<nat>, b: seq<nat>)
    requires Allocated(r, a) && Allocated(r, b)
    ensures Allocated(r, a + b)
    ensures Listed(r, a + b) == Listed(r, a) + Listed(r, b)
    decreases |a|
  {
    assert Allocated(r, a + b) by {
      forall k | 0 <= k < |a + b| ensures (a + b)[k] < |r.entries| {
        if k < |a| { assert (a + b)[k] == a[k]; } else { assert (a + b)[k] == b[k - |a|]; }
      }
    }
    if a == [] {
      assert a + b == b;
    } else {
      assert (a + b)[1..] == a[1..] + b;
      ListedAppend(r, a[1..], b);
    }
  }

  lemma {:induction false} ListedMember<E(!new)>(r: Rep<E>, ids: seq<nat>, x: E)
    requires Allocated(r, ids)
    ensures x in Listed(r, ids) <==>
      exists k :: 0 <= k < |ids| && IsCurrent(r, ids[k]) && r.entries[ids[k]].value == x
    decreases |ids|
  {
    if ids != [] {
      ListedMember(r, ids[1..], x);
      if x in Listed(r, ids[1..]) {
        var k :| 0 <= k < |ids[1..]| && IsCurrent(r, ids[1..][k]) && r.entries[ids[1..][k]].value == x;
        assert ids[k + 1] == ids[1..][k];
      }
      forall k | 1 <= k < |ids| && IsCurrent(r, ids[k]) && r.entries[ids[k]].value == x
        ensures x in Listed(r, ids[1..])
      {
        assert ids[1..][k - 1] == ids[k];
      }
    }
  }

  /** Two states whose entries agree on `ids`, where `r2` keeps exactly the
      current entries of `r1` whose value satisfies `p`, list `Keep(…, p)`. */
  lemma {:induction false} ListedKeep<E(!new)>(r1: Rep<E>, r2: Rep<E>, ids: seq<nat>, p: E -> bool)
    requires Allocated(r1, ids) && Allocated(r2, ids)
    requires forall k :: 0 <= k < |ids| ==>
      && r2.entries[ids[k]].value == r1.entries[ids[k]].value
      && (IsCurrent(r2, ids[k]) <==> IsCurrent(r1, ids[k]) && p(r1.entries[ids[k]].value))
    ensures Listed(r2, ids) == Keep(Listed(r1, ids), p)
    decreases |ids|
  {
    if ids != [] {
      ListedKeep(r1, r2, ids[1..], p);
      var head := if IsCurrent(r1, ids[0]) then [r1.entries[ids[0]].value] else [];
      KeepAppend(head, Listed(r1, ids[1..]), p);
    }
  }

  /** Two states that agree on which of `ids` are current, and on their values, list the same. */
  lemma ListedSame<E(!new)>(r1: Rep<E>, r2: Rep<E>, ids: seq<nat>)
    requires Allocated(r1, ids) && Allocated(r2, ids)
    requires forall k :: 0 <= k < |ids| ==>
      && r2.entries[ids[k]].value == r1.entries[ids[k]].value
      && (IsCurrent(r2, ids[k]) <==> IsCurrent(r1, ids[k]))
    ensures Listed(r2, ids) == Listed(r1, ids)
  {
    var all: E -> bool := x => true;
    ListedKeep(r1, r2, ids, all);
    KeepAll(Listed(r1, ids), all);
  }

  lemma {:induction false} KeepAll<E(!new)>(s: seq<E>, p: E -> bool)
    requires forall x :: p(x)
    ensures Keep(s, p) == s
  {
    if s != [] {
      KeepAll(s[1..], p);
      assert s == [s[0]] + s[1..];
    }
  }

  /** Under the invariant, an element is listed exactly when the index holds it. */
  lemma AbsMembers<E(!new)>(r: Rep<E>)
    requires Valid(r)
    ensures forall x :: x in Abs(r) <==> x in r.index
  {
    forall x ensures x in Abs(r) <==> x in r.index {
      ListedMember(r, r.deque, x);
      if x in r.index {
        var k :| 0 <= k < |r.deque| && r.deque[k] == r.index[x];
        assert IsCurrent(r, r.deque[k]);
      }
    }
  }

  /** Under the invariant, the listed sequence has no duplicates. */
  lemma AbsNoDups<E(!new)>(r: Rep<E>)
    requires Valid(r)
    ensures NoDups(Abs(r))
  {
    ListedNoDups(r, r.deque);
  }

  lemma {:induction false} ListedNoDups<E(!new)>(r: Rep<E>, ids: seq<nat>)
    requires Allocated(r, ids) && NoDups(ids)
    ensures NoDups(Listed(r, ids))
    decreases |ids|
  {
    if ids != [] {
      var tail := ids[1..];
      assert NoDups(tail) by {
        forall i, j | 0 <= i < j < |tail| ensures tail[i] != tail[j] {
          assert tail[i] == ids[i + 1] && tail[j] == ids[j + 1];
        }
      }
      ListedNoDups(r, tail);
      if IsCurrent(r, ids[0]) {
        var x := r.entries[ids[0]].value;
        ListedMember(r, tail, x);
        assert x !in Listed(r, tail);
        var s := [x] + Listed(r, tail);
        assert NoDups(s) by {
          forall i, j | 0 <= i < j < |s| ensures s[i] != s[j] {
            if i == 0 { assert s[j] == Listed(r, tail)[j - 1]; }
            else { assert s[i] == Listed(r, tail)[i - 1] && s[j] == Listed(r, tail)[j - 1]; }
          }
        }
      }
    }
  }

  /** The index has as many keys as the listed sequence has positions. */
  lemma AbsSize<E(!new)>(r: Rep<E>)
    requires Valid(r)
    ensures |r.index| == |Abs(r)|
  {
    AbsMembers(r);
    AbsNoDups(r);
    DistinctCount(Abs(r));
    assert r.index.Keys == Elements(Abs(r));
  }

  // ---------------------------------------------------------------------
  // Operations
  // ---------------------------------------------------------------------

  /** `new ConcurrentUnboundedOrderedSet()`. */
  function Empty<E(!new)>(): (r: Rep<E>)
    ensures Valid(r) && Abs(r) == []
  {
    Rep(map[], [], [])
  }

  /** `contains(e)`: membership in the index. */
  function Contains<E(!new)>(r: Rep<E>, e: E): (b: bool)
    requires Valid(r)
    ensures b <==> e in Abs(r)
  {
    AbsMembers(r);
    e in r.index
  }

  /** `size()`: the size of the index. */
  function Size<E(!new)>(r: Rep<E>): (n: nat)
    requires Valid(r)
    ensures n == |Abs(r)|
  {
    AbsSize(r);
    |r.index|
  }

  /** Appends a fresh current entry for `e`, which the index must not hold. */
  function AppendFresh<E(!new)>(r: Rep<E>, e: E): (r': Rep<E>)
    requires Valid(r) && e !in r.index
    ensures Valid(r') && Abs(r') == Abs(r) + [e]
  {
    var id := |r.entries|;
    var r' := Rep(r.index[e := id], r.entries + [Entry(e, false)], r.deque + [id]);
    AppendFreshValid(r, e, r');
    assert Allocated(r', r.deque);
    assert Allocated(r', [id]);
    ListedAppend(r', r.deque, [id]);
    ListedSame(r, r', r.deque);
    assert Listed(r', [id]) == [e];
    r'
  }

  /** The state `AppendFresh` builds keeps the invariant. */
  lemma AppendFreshValid<E(!new)>(r: Rep<E>, e: E, r': Rep<E>)
    requires Valid(r) && e !in r.index
    requires r' == Rep(r.index[e := |r.entries|], r.entries + [Entry(e, false)], r.deque + [|r.entries|])
    ensures Valid(r')
  {
    var id := |r.entries|;
    assert NoDups(r'.deque) by {
      forall i, j | 0 <= i < j < |r'.deque| ensures r'.deque[i] != r'.deque[j] {
        if j < |r.deque| {
          assert r'.deque[i] == r.deque[i] && r'.deque[j] == r.deque[j];
        } else {
          assert r'.deque[i] == r.deque[i] && r.deque[i] < id;
        }
      }
    }
    forall x | x in r'.index ensures r'.index[x] in r'.deque {
      if x != e { assert r.index[x] in r.deque; }
    }
    forall k | 0 <= k < |r'.deque| && !r'.entries[r'.deque[k]].removed
      ensures IsCurrent(r', r'.deque[k])
    {
      if k < |r.deque| { assert r'.deque[k] == r.deque[k]; assert IsCurrent(r, r.deque[k]); }
    }
  }

  /** `add(e)`: true iff `e` was absent, in which case it becomes last; a
      present element keeps its position. */
  function Add<E(!new)>(r: Rep<E>, e: E): (res: (Rep<E>, bool))
    requires Valid(r)
    ensures Valid(res.0)
    ensures res.1 <==> e !in Abs(r)
    ensures Abs(res.0) == if res.1 then Abs(r) + [e] else Abs(r)
  {
    AbsMembers(r);
    if e in r.index then (r, false)
    else (AppendFresh(r, e), true)
  }

  /** `addOrMoveToLast(e)`: `e` ends up last, once; every other element keeps
      its relative order. True iff `e` was absent. */
  function AddOrMoveToLast<E(!new)>(r: Rep<E>, e: E): (res: (Rep<E>, bool))
    requires Valid(r)
    ensures Valid(res.0)
    ensures res.1 <==> e !in Abs(r)
    ensures Abs(res.0) == Without(Abs(r), e) + [e]
  {
    AbsMembers(r);
    if e !in r.index then
      assert Without(Abs(r), e) == Abs(r) by { WithoutAbsent(Abs(r), e); }
      (AppendFresh(r, e), true)
    else
      var (r1, _) := Remove(r, e);
      (AppendFresh(r1, e), false)
  }

  lemma WithoutAbsent<E(!new)>(s: seq<E>, e: E)
    requires e !in s
    ensures Without(s, e) == s
  {
    assert forall x :: x in s ==> Other(e)(x);
    KeepAllIn(s, Other(e));
  }

  lemma {:induction false} KeepAllIn<E(!new)>(s: seq<E>, p: E -> bool)
    requires forall x :: x in s ==> p(x)
    ensures Keep(s, p) == s
  {
    if s != [] {
      KeepAllIn(s[1..], p);
      assert s == [s[0]] + s[1..];
    }
  }

  /** Flags the current entry of every element the index holds and that
      satisfies `p`, and drops those elements from the index. */
  function Retire<E(!new)>(r: Rep<E>, p: E -> bool): (r': Rep<E>)
    requires Valid(r)
    ensures Valid(r')
    ensures r'.deque == r.deque
    ensures Abs(r') == Keep(Abs(r), Not(p))
    ensures r'.index.Keys == set x | x in r.index && !p(x)
  {
    var entries := seq(|r.entries|, i requires 0 <= i < |r.entries| =>
      var en := r.entries[i];
      if en.value in r.index && r.index[en.value] == i && p(en.value) then Entry(en.value, true) else en);
    var r' := Rep(map x | x in r.index && !p(x) :: r.index[x], entries, r.deque);
    assert Valid(r') by {
      forall x | x in r'.index
        ensures r'.index[x] < |r'.entries| && r'.entries[r'.index[x]] == Entry(x, false) && r'.index[x] in r'.deque
      {
        assert r.entries[r.index[x]] == Entry(x, false);
      }
      forall k | 0 <= k < |r'.deque| && !r'.entries[r'.deque[k]].removed
        ensures IsCurrent(r', r'.deque[k])
      {
        assert IsCurrent(r, r.deque[k]);
      }
    }
    ListedKeep(r, r', r.deque, Not(p));
    r'
  }

  /** `remove(e)`: true iff `e` was present; afterwards it is absent and the
      remaining order is unchanged. */
  function Remove<E(!new)>(r: Rep<E>, e: E): (res: (Rep<E>, bool))
    requires Valid(r)
    ensures Valid(res.0)
    ensures res.1 <==> e in Abs(r)
    ensures Abs(res.0) == Without(Abs(r), e)
    ensures e !in res.0.index
  {
    AbsMembers(r);
    if e in r.index then
      var r' := Retire(r, x => x == e);
      assert Keep(Abs(r), Not(x => x == e)) == Without(Abs(r), e) by {
        KeepSame(Abs(r), Not(x => x == e), Other(e));
      }
      (r', true)
    else
      assert Without(Abs(r), e) == Abs(r) by { WithoutAbsent(Abs(r), e); }
      (r, false)
  }

  lemma {:induction false} KeepSame<E(!new)>(s: seq<E>, p: E -> bool, q: E -> bool)
    requires forall x :: p(x) == q(x)
    ensures Keep(s, p) == Keep(s, q)
  {
    if s != [] { KeepSame(s[1..], p, q); }
  }

  /** `removeIf(p)`: removes exactly the elements satisfying `p`, keeping the
      rest in order; true iff something was removed. */
  function RemoveIf<E(!new)>(r: Rep<E>, p: E -> bool): (res: (Rep<E>, bool))
    requires Valid(r)
    ensures Valid(res.0)
    ensures Abs(res.0) == Keep(Abs(r), Not(p))
    ensures res.1 <==> exists x :: x in Abs(r) && p(x)
  {
    AbsMembers(r);
    (Retire(r, p), exists x :: x in r.index && p(x))
  }

  /** `filter(p)`: the listed elements satisfying `p`, oldest first. */
  function Filter<E(!new)>(r: Rep<E>, p: E -> bool): (xs: seq<E>)
    requires Valid(r)
    ensures forall x :: x in xs <==> x in r.index && p(x)
    ensures NoDups(xs)
    ensures xs == Abs(RemoveIf(r, Not(p)).0)
  {
    AbsMembers(r);
    AbsNoDups(r);
    KeepNoDups(Abs(r), p);
    KeepSame(Abs(r), p, Not(Not(p)));
    Keep(Abs(r), p)
  }

  /** `clear()`: flags every current entry and empties the index and deque. */
  function Clear<E(!new)>(r: Rep<E>): (r': Rep<E>)
    requires Valid(r)
    ensures Valid(r') && Abs(r') == [] && Size(r') == 0
    ensures forall x :: !Contains(r', x)
  {
    var all: E -> bool := x => true;
    var retired := Retire(r, all);
    Rep(map[], retired.entries, [])
  }

  /** `removeOldest()`: polls the deque head, discarding stale entries, until
      it meets a current one, which it unlinks and returns; `None` when empty. */
  function RemoveOldest<E(!new)>(r: Rep<E>): (res: (Rep<E>, Option<E>))
    requires Valid(r)
    ensures Valid(res.0)
    ensures Abs(r) == [] ==> res.1 == None && Abs(res.0) == []
    ensures Abs(r) != [] ==> res.1 == Some(Abs(r)[0]) && Abs(res.0) == Abs(r)[1..]
    decreases |r.deque|
  {
    if r.deque == [] then (r, None)
    else if !IsCurrent(r, r.deque[0]) then
      PopStale(r);
      RemoveOldest(r.(deque := r.deque[1..]))
    else
      (UnlinkHead(r), Some(r.entries[r.deque[0]].value))
  }

  /** The deque without its head, listed from the same state. */
  lemma ListedTail<E(!new)>(r: Rep<E>)
    requires Valid(r) && r.deque != []
    ensures Allocated(r, r.deque[1..])
    ensures Abs(r) == Listed(r, [r.deque[0]]) + Listed(r, r.deque[1..])
  {
    assert r.deque == [r.deque[0]] + r.deque[1..];
    ListedAppend(r, [r.deque[0]], r.deque[1..]);
  }

  /** Dropping a stale head entry changes neither validity nor the listing. */
  lemma PopStale<E(!new)>(r: Rep<E>)
    requires Valid(r) && r.deque != [] && !IsCurrent(r, r.deque[0])
    ensures Valid(r.(deque := r.deque[1..]))
    ensures Abs(r.(deque := r.deque[1..])) == Abs(r)
  {
    var p := r.(deque := r.deque[1..]);
    PopValid(r);
    ListedTail(r);
    ListedSame(r, p, p.deque);
  }

  /** Unlinks the current head entry: drops it from the index, flags it and
      pops it. */
  function UnlinkHead<E(!new)>(r: Rep<E>): (r': Rep<E>)
    requires Valid(r) && r.deque != [] && IsCurrent(r, r.deque[0])
    ensures Valid(r')
    ensures Abs(r) == [r.entries[r.deque[0]].value] + Abs(r')
  {
    var v := r.entries[r.deque[0]].value;
    var flagged := Retire(r, x => x == v);
    assert !IsCurrent(flagged, flagged.deque[0]);
    PopStale(flagged);
    ListedTail(r);
    var rest := Listed(r, r.deque[1..]);
    assert Abs(r) == [v] + rest;
    AbsNoDups(r);
    assert v !in rest by {
      forall k | 0 <= k < |rest| ensures rest[k] != v {
        assert Abs(r)[k + 1] == rest[k] && Abs(r)[0] == v;
      }
    }
    KeepSame(Abs(r), Not(x => x == v), Other(v));
    assert Abs(flagged) == rest by {
      assert Abs(r)[1..] == rest;
      WithoutAbsent(rest, v);
    }
    flagged.(deque := flagged.deque[1..])
  }

  /** Dropping the deque head of a valid state whose head is not current keeps it valid. */
  lemma PopValid<E(!new)>(r: Rep<E>)
    requires Valid(r) && r.deque != []
    ensures NoDups(r.deque[1..])
    ensures !IsCurrent(r, r.deque[0]) ==> Valid(r.(deque := r.deque[1..]))
  {
    var tail := r.deque[1..];
    assert NoDups(tail) by {
      forall i, j | 0 <= i < j < |tail| ensures tail[i] != tail[j] {
        assert tail[i] == r.deque[i + 1] && tail[j] == r.deque[j + 1];
      }
    }
    if !IsCurrent(r, r.deque[0]) {
      var p := r.(deque := tail);
      forall x | x in p.index ensures p.index[x] in p.deque {
        var k :| 0 <= k < |r.deque| && r.deque[k] == r.index[x];
        assert k != 0;
        assert tail[k - 1] == r.deque[k];
      }
      forall k | 0 <= k < |tail| && !p.entries[tail[k]].removed ensures IsCurrent(p, tail[k]) {
        assert tail[k] == r.deque[k + 1];
      }
    }
  }

  /** `peekOldest()`: the first current entry's value, changing nothing. */
  method PeekOldest<E(!new)>(r: Rep<E>) returns (oldest: Option<E>)
    requires Valid(r)
    ensures Abs(r) == [] ==> oldest == None
    ensures Abs(r) != [] ==> oldest == Some(Abs(r)[0])
  {
    var k := 0;
    while k < |r.deque|
      invariant 0 <= k <= |r.deque|
      invariant Allocated(r, r.deque[..k]) && Allocated(r, r.deque[k..])
      invariant Listed(r, r.deque[..k]) == []
      invariant Abs(r) == Listed(r, r.deque[k..])
    {
      assert r.deque[k..] == [r.deque[k]] + r.deque[k + 1..];
      if IsCurrent(r, r.deque[k]) {
        return Some(r.entries[r.deque[k]].value);
      }
      assert r.deque[..k + 1] == r.deque[..k] + [r.deque[k]];
      ListedAppend(r, r.deque[..k], [r.deque[k]]);
      k := k + 1;
    }
    return None;
  }

  /** `toList()`: the current entries' values in deque order. */
  method ToList<E(!new)>(r: Rep<E>) returns (xs: seq<E>)
    requires Valid(r)
    ensures xs == Abs(r)
    ensures NoDups(xs)
    ensures forall x :: x in xs <==> x in r.index
  {
    xs := [];
    var k := 0;
    while k < |r.deque|
      invariant 0 <= k <= |r.deque|
      invariant Allocated(r, r.deque[..k])
      invariant xs == Listed(r, r.deque[..k])
    {
      var id := r.deque[k];
      assert r.deque[..k + 1] == r.deque[..k] + [id];
      ListedAppend(r, r.deque[..k], [id]);
      if !r.entries[id].removed {
        var v := r.entries[id].value;
        if v in r.index && r.index[v] == id {
          xs := xs + [v];
        }
      }
      k := k + 1;
    }
    assert r.deque[..k] == r.deque;
    AbsMembers(r);
    AbsNoDups(r);
  }

  /** `keepOnlyLast(num)`: rejects a negative count; otherwise evicts the
      oldest elements until at most `num` remain. */
  method KeepOnlyLast<E(!new)>(r: Rep<E>, num: int) returns (res: Result<Rep<E>, SetError>)
    requires Valid(r)
    ensures num < 0 <==> res.Failure?
    ensures res.Success? ==> Valid(res.value)
    ensures res.Success? ==>
      var kept := if num < |Abs(r)| then num else |Abs(r)|;
      Abs(res.value) == Abs(r)[|Abs(r)| - kept..]
  {
    if num < 0 {
      return Failure(NegativeCount(num));
    }
    var r' := EvictOldest(r, num);
    return Success(r');
  }

  /** The eviction loop of `keepOnlyLast`: removes the oldest element while
      more than `num` remain (stopping early should nothing be removed). */
  method EvictOldest<E(!new)>(r: Rep<E>, num: nat) returns (r': Rep<E>)
    requires Valid(r)
    ensures Valid(r')
    ensures var kept := if num < |Abs(r)| then num else |Abs(r)|;
      Abs(r') == Abs(r)[|Abs(r)| - kept..]
  {
    ghost var all := Abs(r);
    ghost var evicted := 0;
    r' := r;
    var done := false;
    while !done
      invariant Valid(r')
      invariant 0 <= evicted <= |all|
      invariant Abs(r') == all[evicted..]
      invariant evicted == 0 || num <= |all| - evicted
      invariant done ==> |all| - evicted <= num
      decreases |all| - evicted + (if done then 0 else 1)
    {
      if Size(r') <= num {
        done := true;
      } else {
        var next := RemoveOldest(r');
        assert all[evicted..][1..] == all[evicted + 1..];
        r' := next.0;
        evicted := evicted + 1;
        done := next.1.None?;
      }
    }
  }

  /** `new ConcurrentUnboundedOrderedSet(collection)`, and any run of `add`
      calls: adds the elements in order. */
  function AddAll<E(!new)>(r: Rep<E>, xs: seq<E>): (r': Rep<E>)
    requires Valid(r)
    ensures Valid(r')
    ensures Abs(r') == InsertAll(Abs(r), xs)
    decreases |xs|
  {
    if xs == [] then r
    else AddAll(Add(r, xs[0]).0, xs[1..])
  }

  /** One call of a run of insertions: `add(e)` or `addOrMoveToLast(e)`. */
  datatype Step<E> = AddStep(e: E) | MoveStep(e: E)

  /** Applies one insertion; either kind leaves `e` present and adds nothing else. */
  function Apply<E(!new)>(r: Rep<E>, step: Step<E>): (r': Rep<E>)
    requires Valid(r)
    ensures Valid(r')
    ensures Elements(Abs(r')) == Elements(Abs(r)) + {step.e}
  {
    match step
    case AddStep(e) =>
      var res := Add(r, e);
      AddedElements(Abs(r), Abs(res.0), e);
      res.0
    case MoveStep(e) =>
      var res := AddOrMoveToLast(r, e);
      AddedElements(Abs(r), Abs(res.0), e);
      res.0
  }

  /** Appending `e`, or moving it to the end, adds exactly `e` to the elements. */
  lemma AddedElements<E(!new)>(s: seq<E>, s': seq<E>, e: E)
    requires s' == s + [e] || s' == Without(s, e) + [e] || (e in s && s' == s)
    ensures Elements(s') == Elements(s) + {e}
  {
  }

  /** A run of insertions, in order (one interleaving of the threads of the
      concurrent test). */
  function Run<E(!new)>(r: Rep<E>, steps: seq<Step<E>>): (r': Rep<E>)
    requires Valid(r)
    ensures Valid(r')
    decreases |steps|
  {
    if steps == [] then r else Apply(Run(r, steps[..|steps| - 1]), steps[|steps| - 1])
  }

  /** The values a run submits, in order. */
  function Submitted<E>(steps: seq<Step<E>>): (vs: seq<E>)
    ensures |vs| == |steps|
    ensures forall i :: 0 <= i < |steps| ==> vs[i] == steps[i].e
  {
    if steps == [] then [] else Submitted(steps[..|steps| - 1]) + [steps[|steps| - 1].e]
  }

  /** After a run of insertions the set holds exactly what it held before
      plus every submitted value. */
  lemma {:induction false} RunElements<E(!new)>(r: Rep<E>, steps: seq<Step<E>>)
    requires Valid(r)
    ensures Elements(Abs(Run(r, steps))) == Elements(Abs(r)) + Elements(Submitted(steps))
    decreases |steps|
  {
    if steps != [] {
      var init := steps[..|steps| - 1];
      RunElements(r, init);
      var vs := Submitted(steps);
      assert vs == Submitted(init) + [steps[|steps| - 1].e];
      assert Elements(vs) == Elements(Submitted(init)) + {steps[|steps| - 1].e};
    }
  }

  /** The concurrent test's promises for a run from the empty set: the
      listing has no duplicates and the size is the number of distinct
      submitted values. */
  lemma RunFromEmpty<E(!new)>(steps: seq<Step<E>>)
    ensures NoDups(Abs(Run(Empty(), steps)))
    ensures Size(Run(Empty(), steps)) == |Elements(Submitted(steps))|
  {
    var r := Run(Empty(), steps);
    RunElements(Empty(), steps);
    AbsNoDups(r);
    DistinctCount(Abs(r));
    assert Elements(Abs(Empty<E>())) == {};
  }

  /** The integers in [0, n). */
  function Below(n: nat): (b: set<int>)
    ensures forall i :: i in b <==> 0 <= i < n
    ensures |b| == n
  {
    if n == 0 then {} else Below(n - 1) + {n - 1}
  }

  /** A subset is no larger than its superset. */
  lemma SubsetSize<T>(a: set<T>, b: set<T>)
    requires a <= b
    ensures |a| <= |b|
  {
    assert b == a + (b - a);
  }

  /** The test's bound: values drawn from [0, n) leave at most n elements. */
  lemma RunSizeBound(steps: seq<Step<int>>, n: nat)
    requires forall i :: 0 <= i < |steps| ==> 0 <= steps[i].e < n
    ensures Size(Run(Empty(), steps)) <= n
  {
    RunFromEmpty(steps);
    SubsetSize(Elements(Submitted(steps)), Below(n));
  }

  /** Starts with the letter D. */
  predicate StartsWithD(x: string) {
    |x| > 0 && x[0] == 'D'
  }

  /** Moving D to the end of C, D, E. */
  lemma MoveExample()
    ensures Without(["C", "D", "E"], "D") + ["D"] == ["C", "E", "D"]
  {
    var s: seq<string> := ["C", "D", "E"];
    assert s[1..] == ["D", "E"] && s[1..][1..] == ["E"] && s[1..][1..][1..] == [];
    assert Other("D")("C") && !Other("D")("D") && Other("D")("E");
  }

  /** Removing the elements starting with D from C, E, D. */
  lemma RemoveExample()
    ensures Keep(["C", "E", "D"], Not(StartsWithD)) == ["C", "E"]
  {
    var s: seq<string> := ["C", "E", "D"];
    assert s[1..] == ["E", "D"] && s[1..][1..] == ["D"] && s[1..][1..][1..] == [];
    assert "C"[0] == 'C' && "E"[0] == 'E' && "D"[0] == 'D';
    assert !StartsWithD("C") && !StartsWithD("E") && StartsWithD("D");
  }

  /** The documented sequence of operations on a set holding C, D, E:
      moving D to the end gives C, E, D; removing the elements starting with
      D then succeeds and leaves C, E. */
  lemma MoveThenRemoveExample(r: Rep<string>)
    requires Valid(r) && Abs(r) == ["C", "D", "E"]
    ensures Abs(AddOrMoveToLast(r, "D").0) == ["C", "E", "D"]
    ensures RemoveIf(AddOrMoveToLast(r, "D").0, StartsWithD).1
    ensures Abs(RemoveIf(AddOrMoveToLast(r, "D").0, StartsWithD).0) == ["C", "E"]
  {
    MoveExample();
    var moved := AddOrMoveToLast(r, "D").0;
    assert Abs(moved) == ["C", "E", "D"];
    assert Abs(moved)[2] == "D";
    RemoveExample();
  }
}

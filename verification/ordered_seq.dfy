/** The abstract view of an insertion-ordered set: a sequence without
    duplicates, oldest element first. */
module OrderedSeq {

  predicate NoDups<T(==)>(s: seq<T>) {
    forall i, j :: 0 <= i < j < |s| ==> s[i] != s[j]
  }

  /** The elements of `s`, as a set. */
  function Elements<T>(s: seq<T>): set<T> {
    set x | x in s
  }

  /** The elements of `s` that satisfy `p`, in their original order. */
  function Keep<T(!new)>(s: seq<T>, p: T -> bool): (r: seq<T>)
    ensures forall y :: y in r <==> y in s && p(y)
    ensures |r| <= |s|
  {
    if s == [] then []
    else if p(s[0]) then [s[0]] + Keep(s[1..], p)
    else Keep(s[1..], p)
  }

  lemma {:induction false} KeepNoDups<T(!new)>(s: seq<T>, p: T -> bool)
    requires NoDups(s)
    ensures NoDups(Keep(s, p))
  {
    if s != [] {
      assert NoDups(s[1..]) by {
        forall i, j | 0 <= i < j < |s[1..]| ensures s[1..][i] != s[1..][j] {
          assert s[1..][i] == s[i + 1] && s[1..][j] == s[j + 1];
        }
      }
      KeepNoDups(s[1..], p);
      if p(s[0]) {
        assert s[0] !in s[1..] by {
          forall k | 0 <= k < |s[1..]| ensures s[1..][k] != s[0] {
            assert s[1..][k] == s[k + 1];
          }
        }
        assert s[0] !in Keep(s[1..], p);
      }
    }
  }

  lemma {:induction false} KeepAppend<T(!new)>(a: seq<T>, b: seq<T>, p: T -> bool)
    ensures Keep(a + b, p) == Keep(a, p) + Keep(b, p)
  {
    if a != [] {
      assert (a + b)[0] == a[0];
      assert (a + b)[1..] == a[1..] + b;
      KeepAppend(a[1..], b, p);
    } else {
      assert a + b == b;
    }
  }

  /** Predicate "differs from `e`", so that removing one element is a `Keep`. */
  function Other<T(==)>(e: T): T -> bool {
    x => x != e
  }

  /** Predicate "does not satisfy `p`". */
  function Not<T>(p: T -> bool): T -> bool {
    x => !p(x)
  }

  /** `s` without its element `e`, everything else in order. */
  function Without<T(==,!new)>(s: seq<T>, e: T): (r: seq<T>)
    ensures forall y :: y in r <==> y in s && y != e
  {
    Keep(s, Other(e))
  }

  /** Linked-set insertion: `x` goes last unless it is already present. */
  function Insert<T(==)>(s: seq<T>, x: T): seq<T> {
    if x in s then s else s + [x]
  }

  /** Inserts every element of `xs`, in order, into `acc`: a repeated element
      is kept once, at its first position. */
  function InsertAll<T(==,!new)>(acc: seq<T>, xs: seq<T>): (r: seq<T>)
    ensures NoDups(acc) ==> NoDups(r)
    ensures forall y :: y in r <==> y in acc || y in xs
    ensures |r| <= |acc| + |xs|
    decreases |xs|
  {
    if xs == [] then acc
    else
      assert NoDups(acc) ==> NoDups(Insert(acc, xs[0])) by {
        if NoDups(acc) && xs[0] !in acc {
          assert forall i :: 0 <= i < |acc| ==> (acc + [xs[0]])[i] == acc[i];
        }
      }
      InsertAll(Insert(acc, xs[0]), xs[1..])
  }

  /** Inserting a sequence that repeats nothing already present appends it. */
  lemma {:induction false} InsertAllFresh<T(!new)>(acc: seq<T>, xs: seq<T>)
    requires NoDups(acc + xs)
    ensures InsertAll(acc, xs) == acc + xs
    decreases |xs|
  {
    if xs != [] {
      var ys := acc + xs;
      assert xs[0] !in acc by {
        forall i | 0 <= i < |acc| ensures acc[i] != xs[0] {
          assert ys[i] == acc[i] && ys[|acc|] == xs[0];
        }
      }
      assert (acc + [xs[0]]) + xs[1..] == ys;
      InsertAllFresh(acc + [xs[0]], xs[1..]);
    }
  }

  /** An element already met earlier in the input changes nothing when met again. */
  lemma {:induction false} InsertAllRepeat<T(!new)>(acc: seq<T>, a: seq<T>, x: T, b: seq<T>)
    requires x in acc || x in a
    ensures InsertAll(acc, a + [x] + b) == InsertAll(acc, a + b)
    decreases |a|
  {
    if a == [] {
      assert x in acc;
      assert a + [x] + b == [x] + b;
      assert ([x] + b)[1..] == b;
      assert a + b == b;
    } else {
      assert (a + [x] + b)[0] == a[0] && (a + b)[0] == a[0];
      assert (a + [x] + b)[1..] == a[1..] + [x] + b;
      assert (a + b)[1..] == a[1..] + b;
      InsertAllRepeat(Insert(acc, a[0]), a[1..], x, b);
    }
  }

  /** A duplicate-free sequence has as many distinct elements as positions. */
  lemma {:induction false} DistinctCount<T>(s: seq<T>)
    requires NoDups(s)
    ensures |Elements(s)| == |s|
  {
    if s != [] {
      var t := s[1..];
      assert NoDups(t) by {
        forall i, j | 0 <= i < j < |t| ensures t[i] != t[j] {
          assert t[i] == s[i + 1] && t[j] == s[j + 1];
        }
      }
      DistinctCount(t);
      assert s[0] !in Elements(t) by {
        forall k | 0 <= k < |t| ensures t[k] != s[0] {
          assert t[k] == s[k + 1];
        }
      }
      assert Elements(s) == Elements(t) + {s[0]} by {
        assert s == [s[0]] + t;
      }
    }
  }
}

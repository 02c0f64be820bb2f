/** GeoWindowCheck: fraud when the current transaction lies, in total, more
    than 30 km away from the transactions of its window. The great-circle
    distance is foreign and enters as a function of two coordinate pairs. */
module GeoCheck {
  import opened Records

  const MaxDistanceSumKm: real := 30.0
  const Severity: real := 0.9

  /** (lat1, lon1, lat2, lon2) to kilometres. */
  type Distance = (real, real, real, real) -> real

  ghost predicate NonNegative(dist: Distance) {
    forall lat1, lon1, lat2, lon2 :: dist(lat1, lon1, lat2, lon2) >= 0.0
  }

  function DistanceTo(dist: Distance, current: Transaction, t: Transaction): real {
    dist(current.geolocation.latitude, current.geolocation.longitude,
         t.geolocation.latitude, t.geolocation.longitude)
  }

  /** The distances from `current` to each window transaction, summed in window order. */
  function DistanceSum(dist: Distance, current: Transaction, window: seq<Transaction>): real {
    if window == [] then 0.0
    else DistanceTo(dist, current, window[0]) + DistanceSum(dist, current, window[1..])
  }

  /** `evaluate`: an empty window is never fraud; otherwise fraud iff the
      summed distance strictly exceeds 30 km. */
  function Evaluate(dist: Distance, current: Transaction, window: seq<Transaction>): (e: Evaluation)
    ensures window == [] ==> e == NotFraud
    ensures e == Fraud <==> DistanceSum(dist, current, window) > MaxDistanceSumKm
  {
    if window == [] then NotFraud
    else if DistanceSum(dist, current, window) > MaxDistanceSumKm then Fraud
    else NotFraud
  }

  /** The threshold is strict: a summed distance of exactly 30 km is not fraud. */
  lemma ThresholdStrict(dist: Distance, current: Transaction, window: seq<Transaction>)
    requires DistanceSum(dist, current, window) == MaxDistanceSumKm
    ensures Evaluate(dist, current, window) == NotFraud
  {
  }

  lemma {:induction false} DistanceSumAppend(dist: Distance, current: Transaction, a: seq<Transaction>, b: seq<Transaction>)
    ensures DistanceSum(dist, current, a + b) == DistanceSum(dist, current, a) + DistanceSum(dist, current, b)
    decreases |a|
  {
    if a == [] {
      assert a + b == b;
    } else {
      assert (a + b)[1..] == a[1..] + b;
      DistanceSumAppend(dist, current, a[1..], b);
    }
  }

  /** With non-negative distances, the sum bounds every single distance. */
  lemma {:induction false} DistanceSumBoundsEach(dist: Distance, current: Transaction, window: seq<Transaction>, k: nat)
    requires NonNegative(dist) && k < |window|
    ensures DistanceSum(dist, current, window) >= DistanceTo(dist, current, window[k])
    decreases |window|
  {
    NonNegativeSum(dist, current, window[1..]);
    if k > 0 {
      assert window[1..][k - 1] == window[k];
      DistanceSumBoundsEach(dist, current, window[1..], k - 1);
    }
  }

  lemma {:induction false} NonNegativeSum(dist: Distance, current: Transaction, window: seq<Transaction>)
    requires NonNegative(dist)
    ensures DistanceSum(dist, current, window) >= 0.0
    decreases |window|
  {
    if window != [] {
      NonNegativeSum(dist, current, window[1..]);
    }
  }

  /** One window transaction farther than 30 km suffices for fraud. */
  lemma OneFarTransaction(dist: Distance, current: Transaction, window: seq<Transaction>, k: nat)
    requires NonNegative(dist) && k < |window|
    requires DistanceTo(dist, current, window[k]) > MaxDistanceSumKm
    ensures Evaluate(dist, current, window) == Fraud
  {
    DistanceSumBoundsEach(dist, current, window, k);
  }

  /** Taking one element out of a sequence takes it out of the multiset. */
  lemma MultisetRemove(w: seq<Transaction>, i: nat)
    requires i < |w|
    ensures multiset(w[..i] + w[i + 1..]) == multiset(w) - multiset{w[i]}
  {
    assert w == w[..i] + [w[i]] + w[i + 1..];
  }

  /** Dropping the head of a sequence drops it from the multiset. */
  lemma MultisetTail(w: seq<Transaction>)
    requires w != []
    ensures multiset(w[1..]) == multiset(w) - multiset{w[0]}
  {
    assert w == [w[0]] + w[1..];
  }

  /** The sum splits into the distance of one element and the rest. */
  lemma DistanceSumRemove(dist: Distance, current: Transaction, w: seq<Transaction>, i: nat)
    requires i < |w|
    ensures DistanceSum(dist, current, w)
      == DistanceTo(dist, current, w[i]) + DistanceSum(dist, current, w[..i] + w[i + 1..])
  {
    assert w == w[..i] + [w[i]] + w[i + 1..];
    DistanceSumAppend(dist, current, w[..i] + [w[i]], w[i + 1..]);
    DistanceSumAppend(dist, current, w[..i], [w[i]]);
    DistanceSumAppend(dist, current, w[..i], w[i + 1..]);
  }

  /** The summed distance does not depend on the order of the window. */
  lemma {:induction false} SumOrderIndependent(dist: Distance, current: Transaction, w1: seq<Transaction>, w2: seq<Transaction>)
    requires multiset(w1) == multiset(w2)
    ensures DistanceSum(dist, current, w1) == DistanceSum(dist, current, w2)
    decreases |w1|
  {
    if w1 != [] {
      var x := w1[0];
      assert x in multiset(w2);
      var i :| 0 <= i < |w2| && w2[i] == x;
      var rest := w2[..i] + w2[i + 1..];
      MultisetTail(w1);
      MultisetRemove(w2, i);
      SumOrderIndependent(dist, current, w1[1..], rest);
      DistanceSumRemove(dist, current, w2, i);
    } else {
      assert |w2| == |multiset(w2)|;
    }
  }

  /** The verdict does not depend on the order of the window. */
  lemma OrderIndependent(dist: Distance, current: Transaction, w1: seq<Transaction>, w2: seq<Transaction>)
    requires multiset(w1) == multiset(w2)
    ensures Evaluate(dist, current, w1) == Evaluate(dist, current, w2)
  {
    SumOrderIndependent(dist, current, w1, w2);
  }
}

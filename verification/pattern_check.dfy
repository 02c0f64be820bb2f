/** PatternWindowCheck: fraud when the current amount and some window amount
    sit at opposite extremes, one small (below 3.0) and the other large
    (above 500.0). */
module PatternCheck {
  import opened Records

  const SmallAmountMaxThreshold: real := 3.0
  const BigAmountMinThreshold: real := 500.0
  const Severity: real := 0.55

  predicate IsSmall(amount: real) { amount < SmallAmountMaxThreshold }
  predicate IsLarge(amount: real) { amount > BigAmountMinThreshold }

  /** A small amount next to a large one, in either order. */
  predicate Alternates(previous: real, current: real) {
    (IsSmall(previous) && IsLarge(current)) || (IsLarge(previous) && IsSmall(current))
  }

  /** `evaluate`: scans the window in order and reports fraud at the first
      window transaction whose amount alternates with the current one. */
  function Evaluate(current: Transaction, window: seq<Transaction>): (e: Evaluation)
    ensures e == Fraud <==> exists k :: 0 <= k < |window| && Alternates(window[k].amount, current.amount)
  {
    if window == [] then NotFraud
    else if Alternates(window[0].amount, current.amount) then Fraud
    else
      var e := Evaluate(current, window[1..]);
      assert e == Fraud ==> exists k :: 0 <= k < |window| && Alternates(window[k].amount, current.amount) by {
        if e == Fraud {
          var k :| 0 <= k < |window[1..]| && Alternates(window[1..][k].amount, current.amount);
          assert window[k + 1] == window[1..][k];
        }
      }
      assert (exists k :: 0 <= k < |window| && Alternates(window[k].amount, current.amount)) ==> e == Fraud by {
        if exists k :: 0 <= k < |window| && Alternates(window[k].amount, current.amount) {
          var k :| 0 <= k < |window| && Alternates(window[k].amount, current.amount);
          assert k != 0;
          assert window[1..][k - 1] == window[k];
        }
      }
      e
  }

  /** A current amount in [3.0, 500.0] is never fraud, whatever the window. */
  lemma MidRangeNeverFraud(current: Transaction, window: seq<Transaction>)
    requires SmallAmountMaxThreshold <= current.amount <= BigAmountMinThreshold
    ensures Evaluate(current, window) == NotFraud
  {
  }

  /** The bounds are strict: window amounts of exactly 3.0 or 500.0 never
      fire, whatever the current amount. */
  lemma BoundsStrict(current: Transaction, window: seq<Transaction>)
    requires forall k :: 0 <= k < |window| ==>
      window[k].amount == SmallAmountMaxThreshold || window[k].amount == BigAmountMinThreshold
    ensures Evaluate(current, window) == NotFraud
  {
  }

  /** Pairs of the same class never fire. */
  lemma SameClassNeverFires(current: Transaction, window: seq<Transaction>)
    requires forall k :: 0 <= k < |window| ==>
      (IsSmall(window[k].amount) && IsSmall(current.amount)) || (IsLarge(window[k].amount) && IsLarge(current.amount))
    ensures Evaluate(current, window) == NotFraud
  {
  }
}

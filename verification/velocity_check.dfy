/** VelocityWindowCheck: fraud when the window's total amount, spread over
    the time between its first and last transaction, exceeds 1000 per
    minute. Java's double arithmetic is exact `real` arithmetic here. */
module VelocityCheck {
  import opened Records

  const MaxAmountPerMinute: real := 1000.0
  const Severity: real := 0.99
  const MillisPerMinute: real := 60000.0
  /** The elapsed time assumed when the last timestamp does not follow the first. */
  const MinimumElapsedMs: int := 1000
  const OneSecondInMinutes: real := 1.0 / 60.0

  /** The window's amounts, summed. */
  function AmountSum(window: seq<Transaction>): real {
    if window == [] then 0.0 else window[0].amount + AmountSum(window[1..])
  }

  /** The elapsed milliseconds the rate is computed over: the gap from first
      to last, or one second when that gap is not positive. */
  function ElapsedMs(firstMs: int, lastMs: int): (ms: int)
    ensures ms > 0
    ensures lastMs > firstMs ==> ms == lastMs - firstMs
  {
    if lastMs <= firstMs then MinimumElapsedMs else lastMs - firstMs
  }

  lemma DivExceeds(a: real, m: real, c: real)
    requires m > 0.0
    ensures a / m > c <==> a > c * m
  {
    assert a == (a / m) * m;
    if a / m > c {
      assert (a / m) * m > c * m;
    } else {
      assert (a / m) * m <= c * m;
    }
  }

  /** `exceedsRate`: the rate in amount per minute is strictly above the
      threshold; equivalently total·60000 > 1000·elapsed. */
  function ExceedsRate(totalAmount: real, firstMs: int, lastMs: int): (exceeds: bool)
    ensures exceeds <==> totalAmount * MillisPerMinute > MaxAmountPerMinute * ElapsedMs(firstMs, lastMs) as real
  {
    var last := if lastMs <= firstMs then firstMs + MinimumElapsedMs else lastMs;
    var minutes := (last - firstMs) as real / MillisPerMinute;
    var minutes := if minutes <= 0.0 then OneSecondInMinutes else minutes;
    var rate := totalAmount / minutes;
    var e := ElapsedMs(firstMs, lastMs) as real;
    assert minutes == e / MillisPerMinute;
    DivExceeds(totalAmount, minutes, MaxAmountPerMinute);
    DivExceeds(totalAmount * MillisPerMinute, MillisPerMinute, MaxAmountPerMinute * e / MillisPerMinute);
    rate > MaxAmountPerMinute
  }

  /** `evaluate`: an empty window is never fraud; otherwise the rate runs
      from the window's first to its last element, in window order. */
  function Evaluate(current: Transaction, window: seq<Transaction>): (e: Evaluation)
    ensures window == [] ==> e == NotFraud
    ensures window != [] ==>
      (e == Fraud <==>
         AmountSum(window) * MillisPerMinute
           > MaxAmountPerMinute * ElapsedMs(window[0].timestamp, window[|window| - 1].timestamp) as real)
  {
    if window == [] then NotFraud
    else
      var first := window[0];
      var last := window[|window| - 1];
      if ExceedsRate(AmountSum(window), first.timestamp, last.timestamp) then Fraud else NotFraud
  }

  /** A single transaction is fraud iff its amount exceeds 1000 per second's
      worth of a minute: amount·60 > 1000. */
  lemma SingleTransaction(current: Transaction, t: Transaction)
    ensures Evaluate(current, [t]) == Fraud <==> t.amount * 60.0 > MaxAmountPerMinute
  {
    assert AmountSum([t]) == t.amount by {
      assert [t][1..] == [];
    }
  }

  /** 2000 spent over exactly one minute is fraud; 500 is not. */
  lemma OneMinuteExamples(current: Transaction, window: seq<Transaction>)
    requires |window| >= 2
    requires window[|window| - 1].timestamp == window[0].timestamp + 60000
    ensures AmountSum(window) == 2000.0 ==> Evaluate(current, window) == Fraud
    ensures AmountSum(window) == 500.0 ==> Evaluate(current, window) == NotFraud
  {
  }

  /** First and last are taken by position, not by time: a window listed
      newest first is rated over one second, however long it spans. */
  lemma PositionNotTime(current: Transaction, window: seq<Transaction>)
    requires |window| >= 2
    requires window[|window| - 1].timestamp <= window[0].timestamp
    ensures Evaluate(current, window) == Fraud <==> AmountSum(window) * 60.0 > MaxAmountPerMinute
  {
  }
}

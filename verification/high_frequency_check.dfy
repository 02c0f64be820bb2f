/** HighFrequencyWindowCheck: fraud when the window holds ten or more transactions. */
module HighFrequencyCheck {
  import opened Records

  const MaxTransactionsInWindow: nat := 10
  const Severity: real := 1.0

  function Evaluate(current: Transaction, window: seq<Transaction>): (e: Evaluation)
    ensures e == Fraud <==> |window| >= MaxTransactionsInWindow
  {
    if |window| >= MaxTransactionsInWindow then Fraud else NotFraud
  }

  /** Nine transactions are not fraud; ten are. */
  lemma Boundary(current: Transaction, nine: seq<Transaction>, ten: seq<Transaction>)
    requires |nine| == 9 && |ten| == 10
    ensures Evaluate(current, nine) == NotFraud
    ensures Evaluate(current, ten) == Fraud
  {
  }

  /** Enlarging the window never withdraws a fraud verdict. */
  lemma Monotone(current: Transaction, window: seq<Transaction>, more: seq<Transaction>)
    requires Evaluate(current, window) == Fraud
    ensures Evaluate(current, window + more) == Fraud
  {
  }
}

/** ProcessedClientCCJoiner: the value joiner of the windowed stream joins
    that combine, per transaction id, the records of the five rule
    processors. */
module Joiner {
  import opened Wrappers
  import opened Records

  /** `apply(left, right)`: the left record's client and transaction, an
      empty window, and the sum of both scores. */
  function Join(left: Processed, right: Processed): (j: Processed)
    ensures j.clientId == left.clientId && j.current == left.current
    ensures j.lastTransactions == Some([])
    ensures GetFraudScore(j) == GetFraudScore(left) + GetFraudScore(right)
  {
    var joined := New(left.clientId, left.current, []);
    SetFraudScore(joined, GetFraudScore(left) + GetFraudScore(right))
  }

  /** Only the right record's score is read. */
  lemma RightScoreOnly(left: Processed, r1: Processed, r2: Processed)
    requires GetFraudScore(r1) == GetFraudScore(r2)
    ensures Join(left, r1) == Join(left, r2)
  {
  }

  /** Joins regroup: the chain may be bracketed either way. */
  lemma Associative(a: Processed, b: Processed, c: Processed)
    ensures Join(Join(a, b), c) == Join(a, Join(b, c))
  {
  }

  /** `first.join(s1, joiner).join(s2, joiner)…`: the left-nested chain. */
  function JoinChain(first: Processed, rest: seq<Processed>): Processed
  {
    if rest == [] then first else Join(JoinChain(first, rest[..|rest| - 1]), rest[|rest| - 1])
  }

  /** A chain of at least one join yields the first record's client and
      transaction with an empty window and the sum of all the scores, so the
      joined record is refused iff that sum is positive. */
  lemma {:induction false} ChainSumsScores(first: Processed, rest: seq<Processed>)
    requires rest != []
    ensures JoinChain(first, rest).clientId == first.clientId
    ensures JoinChain(first, rest).current == first.current
    ensures JoinChain(first, rest).lastTransactions == Some([])
    ensures GetFraudScore(JoinChain(first, rest)) == GetFraudScore(first) + TotalScore(rest)
    ensures IsRefused(JoinChain(first, rest)) <==> GetFraudScore(first) + TotalScore(rest) > 0.0
  {
    var init := rest[..|rest| - 1];
    if init != [] {
      ChainSumsScores(first, init);
    }
  }
}

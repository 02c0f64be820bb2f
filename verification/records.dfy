/** The records the pipeline passes around: the credit-card transaction (a
    plain value) and the processed record, whose null-defaulting getters the
    window processors and the merger rely on. */
module Records {
  import opened Wrappers
  import opened OrderedSeq

  datatype CardDetails = CardDetails(cardId: string, nameOnCard: string, brand: string, expiryDate: string)

  datatype Geolocation = Geolocation(latitude: real, longitude: real, googlePlacesId: string)

  /** A transaction; `amount` is the decimal amount and `timestamp` the event
      time in epoch milliseconds. */
  datatype Transaction = Transaction(
    transactionId: string,
    clientId: string,
    amount: real,
    timestamp: int,
    isFraud: bool,
    cardDetails: CardDetails,
    geolocation: Geolocation,
    publicIpAddress: string)

  /** ProcessedClientCCTransaction. The window (`lastCCTransactions`, a linked
      hash set) and the score may be null, hence `Option`; the window is kept
      as a sequence in insertion order. */
  datatype Processed = Processed(
    clientId: string,
    current: Transaction,
    lastTransactions: Option<seq<Transaction>>,
    fraudScore: Option<real>)

  /** A stream record: key, value and timestamp. */
  datatype Record<V> = Record(key: string, value: V, timestamp: int)

  /** The verdict of a rule evaluator. */
  datatype Evaluation = Fraud | NotFraud

  /** The score field's initial value. */
  const DefaultScore: real := 0.0

  /** The three-argument constructor: the score starts at its default. */
  function New(clientId: string, current: Transaction, window: seq<Transaction>): (p: Processed)
    ensures GetFraudScore(p) == 0.0
    ensures GetLastTransactions(p) == window
    ensures p.clientId == clientId && p.current == current
  {
    Processed(clientId, current, Some(window), Some(DefaultScore))
  }

  /** `getFraudScore()`: never null, zero when the score is unset. */
  function GetFraudScore(p: Processed): (s: real)
    ensures p.fraudScore.None? ==> s == 0.0
    ensures p.fraudScore.Some? ==> s == p.fraudScore.value
  {
    p.fraudScore.GetOr(0.0)
  }

  function SetFraudScore(p: Processed, s: real): (p': Processed)
    ensures GetFraudScore(p') == s
    ensures p'.clientId == p.clientId && p'.current == p.current
    ensures p'.lastTransactions == p.lastTransactions
  {
    p.(fraudScore := Some(s))
  }

  /** `getLastCCTransactions()`: the window, or a fresh empty one when unset. */
  function GetLastTransactions(p: Processed): (w: seq<Transaction>)
    ensures p.lastTransactions.None? ==> w == []
    ensures p.lastTransactions.Some? ==> w == p.lastTransactions.value
  {
    p.lastTransactions.GetOr([])
  }

  /** `getLastCCTransactions().add(t)`: the insertion lands in the record's
      own set when it has one, and in a discarded fresh set otherwise. */
  function AddToWindow(p: Processed, t: Transaction): (p': Processed)
    ensures p.lastTransactions.None? ==> p' == p
    ensures p.lastTransactions.Some? ==>
      && GetLastTransactions(p') == Insert(GetLastTransactions(p), t)
      && p' == p.(lastTransactions := p'.lastTransactions)
  {
    match p.lastTransactions
    case None => p
    case Some(w) => p.(lastTransactions := Some(Insert(w, t)))
  }

  /** The score setter and getter round-trip. */
  lemma SetThenGet(p: Processed, s: real)
    ensures GetFraudScore(SetFraudScore(p, s)) == s
    ensures GetLastTransactions(SetFraudScore(p, s)) == GetLastTransactions(p)
  {
  }

  /** Routing after the merge: a record goes to the refused topic iff its
      score is positive, otherwise to the accepted one. */
  function IsRefused(p: Processed): (refused: bool)
    ensures refused <==> p.fraudScore.Some? && p.fraudScore.value > 0.0
  {
    GetFraudScore(p) > 0.0
  }

  /** The sum of the scores of a sequence of processed records. */
  function TotalScore(ps: seq<Processed>): real
  {
    if ps == [] then 0.0 else TotalScore(ps[..|ps| - 1]) + GetFraudScore(ps[|ps| - 1])
  }
}

/** AbstractWindowProcessor: the stateful processor that runs one rule. For
    each transaction of a client it fetches that client's stored records of
    the last 30 minutes, collects their transactions into the window, runs
    the rule's evaluator, sets the score to the rule's severity on fraud,
    stores the record under the transaction's timestamp and forwards it. */
module WindowProcessor {
  import opened Wrappers
  import opened OrderedSeq
  import opened Records
  import opened IpUtils
  import opened WindowStore
  import GeoCheck
  import MultipleIpCheck
  import PatternCheck
  import VelocityCheck
  import HighFrequencyCheck

  /** Thirty minutes, in milliseconds. */
  const WindowSizeMs: int := 30 * 60 * 1000

  /** The five concrete processors. */
  datatype Rule = Geo | MultipleIp | Pattern | Velocity | HighFrequency

  /** The foreign collaborators the evaluators call. */
  datatype Env = Env(distance: GeoCheck.Distance, parse: Parser)

  datatype Output = Output(store: Store<Processed>, forwarded: Record<Processed>)

  /** `getFraudScore()` of each rule. */
  function Severity(rule: Rule): (s: real)
    ensures 0.0 < s <= 1.0
  {
    match rule
    case Geo => GeoCheck.Severity
    case MultipleIp => MultipleIpCheck.Severity
    case Pattern => PatternCheck.Severity
    case Velocity => VelocityCheck.Severity
    case HighFrequency => HighFrequencyCheck.Severity
  }

  /** `evaluate` of each rule; only the address rule can fail. */
  function Verdict(rule: Rule, env: Env, current: Transaction, window: seq<Transaction>): (res: Result<Evaluation, IpError>)
    ensures rule != MultipleIp ==> res.Success?
  {
    match rule
    case Geo => Success(GeoCheck.Evaluate(env.distance, current, window))
    case MultipleIp => MultipleIpCheck.Evaluate(env.parse, current, window)
    case Pattern => Success(PatternCheck.Evaluate(current, window))
    case Velocity => Success(VelocityCheck.Evaluate(current, window))
    case HighFrequency => Success(HighFrequencyCheck.Evaluate(current, window))
  }

  /** The current transactions of fetched rows, in fetch order. */
  function Currents(rows: seq<Row<Processed>>): (ts: seq<Transaction>)
    ensures |ts| == |rows|
    ensures forall k :: 0 <= k < |rows| ==> ts[k] == rows[k].value.current
  {
    if rows == [] then [] else [rows[0].value.current] + Currents(rows[1..])
  }

  /** The fetch loop: adds each fetched record's current transaction to the
      candidate's window through its getter. */
  function Collect(p: Processed, rows: seq<Row<Processed>>): (p': Processed)
    requires p.lastTransactions.Some?
    ensures p'.lastTransactions.Some?
    ensures p' == p.(lastTransactions := p'.lastTransactions)
    ensures GetLastTransactions(p') == InsertAll(GetLastTransactions(p), Currents(rows))
    decreases |rows|
  {
    if rows == [] then p
    else
      assert Currents(rows)[1..] == Currents(rows[1..]);
      Collect(AddToWindow(p, rows[0].value.current), rows[1..])
  }

  /** The window a record is evaluated against: the distinct current
      transactions of the client's records stored at timestamps from the
      record's timestamp minus 30 minutes up to the transaction's timestamp. */
  function WindowOf(store: Store<Processed>, record: Record<Transaction>): seq<Transaction>
    requires Valid(store)
  {
    WindowOfRows(FetchWindow(store, record))
  }

  /** The fetch `process` issues: the client's rows from the record's
      timestamp minus 30 minutes up to the transaction's timestamp. */
  function FetchWindow(store: Store<Processed>, record: Record<Transaction>): (rows: seq<Row<Processed>>)
    requires Valid(store)
    ensures forall row :: row in rows <==> InWindow(store, record, row)
  {
    var rows := Fetch(store, record.key, record.timestamp - WindowSizeMs, record.value.timestamp);
    assert forall row :: row in rows ==> Row(row.timestamp, row.value) == row;
    rows
  }

  /** `row` is stored for the client within the fetched range. */
  predicate InWindow(store: Store<Processed>, record: Record<Transaction>, row: Row<Processed>) {
    && record.timestamp - WindowSizeMs <= row.timestamp <= record.value.timestamp
    && Get(store, record.key, row.timestamp) == Some(row.value)
  }

  /** The distinct current transactions of fetched rows, in fetch order. */
  function WindowOfRows(rows: seq<Row<Processed>>): (w: seq<Transaction>)
    ensures NoDups(w)
    ensures forall t :: t in w <==> t in Currents(rows)
  {
    InsertAll([], Currents(rows))
  }

  /** The anonymous processor's `process`: fetch, evaluate, score, put, forward.
      An exception from the evaluator escapes before anything is stored or
      forwarded. */
  function Process(rule: Rule, env: Env, store: Store<Processed>, record: Record<Transaction>): (res: Result<Output, IpError>)
    requires Valid(store)
    ensures res.Success? <==> Verdict(rule, env, record.value, WindowOf(store, record)).Success?
    ensures res.Success? ==>
      var fwd := res.value.forwarded;
      && fwd.key == record.key
      && fwd.timestamp == record.timestamp
      && fwd.value.clientId == record.value.clientId
      && fwd.value.current == record.value
      && GetLastTransactions(fwd.value) == WindowOf(store, record)
      && GetFraudScore(fwd.value)
           == (if Verdict(rule, env, record.value, WindowOf(store, record)).value == Fraud then Severity(rule) else 0.0)
    ensures res.Success? ==> Valid(res.value.store)
    ensures res.Success? ==> forall k, t :: (Get(res.value.store, k, t)
      == if k == record.key && t == record.value.timestamp then Some(res.value.forwarded.value) else Get(store, k, t))
    ensures res.Success? ==> forall k :: k != record.key ==> RowsOf(res.value.store, k) == RowsOf(store, k)
  {
    var clientId := record.key;
    var tx := record.value;
    var initial := New(tx.clientId, tx, []);
    var candidate := Collect(initial, FetchWindow(store, record));
    match Verdict(rule, env, candidate.current, GetLastTransactions(candidate))
    case Failure(err) => Failure(err)
    case Success(evaluation) =>
      var scored :=
        if evaluation == Fraud then SetFraudScore(candidate, GetFraudScore(candidate) + Severity(rule))
        else candidate;
      Success(Output(Put(store, clientId, scored, tx.timestamp), Record(clientId, scored, record.timestamp)))
  }

  /** A record stored for the client at `ts`, within the fetched range,
      whose current transaction is `t`. */
  predicate StoredInRange(store: Store<Processed>, record: Record<Transaction>, ts: int, t: Transaction) {
    && record.timestamp - WindowSizeMs <= ts <= record.value.timestamp
    && Get(store, record.key, ts).Some?
    && Get(store, record.key, ts).value.current == t
  }

  /** The window holds exactly the current transactions of the client's
      records stored within the fetched range. */
  lemma WindowMembers(store: Store<Processed>, record: Record<Transaction>, t: Transaction)
    requires Valid(store)
    ensures t in WindowOf(store, record) <==> exists ts :: StoredInRange(store, record, ts, t)
  {
    if t in WindowOf(store, record) {
      WindowMemberStored(store, record, t);
    }
    if exists ts :: StoredInRange(store, record, ts, t) {
      var ts :| StoredInRange(store, record, ts, t);
      StoredWindowMember(store, record, ts, t);
    }
  }

  /** The window's members are exactly the fetched rows' transactions. */
  lemma WindowIsCurrents(store: Store<Processed>, record: Record<Transaction>, t: Transaction)
    requires Valid(store)
    ensures t in WindowOf(store, record) <==> t in Currents(FetchWindow(store, record))
  {
  }

  /** One direction of `WindowMembers`: a window member was stored in range. */
  lemma WindowMemberStored(store: Store<Processed>, record: Record<Transaction>, t: Transaction)
    requires Valid(store) && t in WindowOf(store, record)
    ensures exists ts :: StoredInRange(store, record, ts, t)
  {
    var rows := FetchWindow(store, record);
    WindowIsCurrents(store, record, t);
    var currents := Currents(rows);
    var k :| 0 <= k < |currents| && currents[k] == t;
    assert rows[k] in rows;
    assert StoredInRange(store, record, rows[k].timestamp, t);
  }

  /** The other direction: a record stored in range lands in the window. */
  lemma StoredWindowMember(store: Store<Processed>, record: Record<Transaction>, ts: int, t: Transaction)
    requires Valid(store) && StoredInRange(store, record, ts, t)
    ensures t in WindowOf(store, record)
  {
    var rows := FetchWindow(store, record);
    var row := Row(ts, Get(store, record.key, ts).value);
    assert InWindow(store, record, row);
    var k :| 0 <= k < |rows| && rows[k] == row;
    assert Currents(rows)[k] == t;
    WindowIsCurrents(store, record, t);
  }

  /** The window has no duplicates. */
  lemma WindowNoDups(store: Store<Processed>, record: Record<Transaction>)
    requires Valid(store)
    ensures NoDups(WindowOf(store, record))
  {
  }

  /** The window is read before this call's record is written: unless an
      earlier record in range already carries the transaction, the window
      does not contain it. */
  lemma WindowExcludesCurrent(store: Store<Processed>, record: Record<Transaction>)
    requires Valid(store)
    requires forall ts :: Get(store, record.key, ts).Some? ==> Get(store, record.key, ts).value.current != record.value
    ensures record.value !in WindowOf(store, record)
  {
    WindowMembers(store, record, record.value);
  }

  /** Only the record's own client key is read: stores that agree on that
      key give the same outcome, and stores that agree on it afterwards too. */
  lemma OnlyOwnKeyRead(rule: Rule, env: Env, s1: Store<Processed>, s2: Store<Processed>, record: Record<Transaction>)
    requires Valid(s1) && Valid(s2)
    requires RowsOf(s1, record.key) == RowsOf(s2, record.key)
    ensures Process(rule, env, s1, record).Success? == Process(rule, env, s2, record).Success?
    ensures Process(rule, env, s1, record).Success? && Process(rule, env, s2, record).Success? ==>
      && Process(rule, env, s1, record).value.forwarded == Process(rule, env, s2, record).value.forwarded
      && RowsOf(Process(rule, env, s1, record).value.store, record.key)
           == RowsOf(Process(rule, env, s2, record).value.store, record.key)
  {
    assert FetchWindow(s1, record) == FetchWindow(s2, record);
    SameWindowSameOutcome(rule, env, s1, s2, record);
    if Process(rule, env, s1, record).Success? {
      SameWriteSameRows(s1, s2, record.key, Process(rule, env, s1, record).value.forwarded.value, record.value.timestamp);
    }
  }

  /** Stores that fetch the same window give the same outcome and forward
      the same record, which each stores under the transaction's timestamp. */
  lemma SameWindowSameOutcome(rule: Rule, env: Env, s1: Store<Processed>, s2: Store<Processed>, record: Record<Transaction>)
    requires Valid(s1) && Valid(s2)
    requires FetchWindow(s1, record) == FetchWindow(s2, record)
    ensures Process(rule, env, s1, record).Success? == Process(rule, env, s2, record).Success?
    ensures Process(rule, env, s1, record).Success? && Process(rule, env, s2, record).Success? ==>
      && Process(rule, env, s1, record).value.forwarded == Process(rule, env, s2, record).value.forwarded
      && Process(rule, env, s1, record).value.store
           == Put(s1, record.key, Process(rule, env, s1, record).value.forwarded.value, record.value.timestamp)
      && Process(rule, env, s2, record).value.store
           == Put(s2, record.key, Process(rule, env, s1, record).value.forwarded.value, record.value.timestamp)
  {
  }

  /** Writing the same value at the same place of two stores that agree on
      a key leaves them agreeing on that key. */
  lemma SameWriteSameRows(s1: Store<Processed>, s2: Store<Processed>, key: string, v: Processed, ts: int)
    requires Valid(s1) && Valid(s2)
    requires RowsOf(s1, key) == RowsOf(s2, key)
    ensures RowsOf(Put(s1, key, v, ts), key) == RowsOf(Put(s2, key, v, ts), key)
  {
  }

  /** The fetched rows come in ascending timestamp order. */
  lemma FetchWindowAscending(store: Store<Processed>, record: Record<Transaction>)
    requires Valid(store)
    ensures Ascending(FetchWindow(store, record))
  {
  }

  /** Every stored record sits under its own transaction's timestamp, as
      `process` stores it. */
  ghost predicate Stamped(store: Store<Processed>) {
    forall key, ts :: Get(store, key, ts).Some? ==> Get(store, key, ts).value.current.timestamp == ts
  }

  /** `process` keeps every record under its transaction's timestamp. */
  lemma ProcessKeepsStamped(rule: Rule, env: Env, store: Store<Processed>, record: Record<Transaction>)
    requires Valid(store) && Stamped(store)
    requires Process(rule, env, store, record).Success?
    ensures Stamped(Process(rule, env, store, record).value.store)
  {
  }

  /** In a store built by `process`, the window lists its transactions in
      strictly increasing timestamp order, so its first and last elements are
      the earliest and the latest. */
  lemma WindowChronological(store: Store<Processed>, record: Record<Transaction>)
    requires Valid(store) && Stamped(store)
    ensures forall i, j :: 0 <= i < j < |WindowOf(store, record)| ==>
      WindowOf(store, record)[i].timestamp < WindowOf(store, record)[j].timestamp
  {
    var rows := FetchWindow(store, record);
    FetchWindowAscending(store, record);
    forall k | 0 <= k < |rows| ensures rows[k].value.current.timestamp == rows[k].timestamp {
      assert rows[k] in rows;
      assert InWindow(store, record, rows[k]);
    }
    ChronologicalRows(rows);
  }

  /** Ascending rows whose records carry their own timestamps give a window
      in strictly increasing timestamp order. */
  lemma ChronologicalRows(rows: seq<Row<Processed>>)
    requires Ascending(rows)
    requires forall k :: 0 <= k < |rows| ==> rows[k].value.current.timestamp == rows[k].timestamp
    ensures forall i, j :: 0 <= i < j < |WindowOfRows(rows)| ==>
      WindowOfRows(rows)[i].timestamp < WindowOfRows(rows)[j].timestamp
  {
    var cs := Currents(rows);
    CurrentsChronological(rows);
    assert NoDups(cs);
    assert [] + cs == cs;
    InsertAllFresh([], cs);
  }

  /** The current transactions of such rows are in increasing timestamp order. */
  lemma CurrentsChronological(rows: seq<Row<Processed>>)
    requires Ascending(rows)
    requires forall k :: 0 <= k < |rows| ==> rows[k].value.current.timestamp == rows[k].timestamp
    ensures forall i, j :: 0 <= i < j < |Currents(rows)| ==> Currents(rows)[i].timestamp < Currents(rows)[j].timestamp
  {
    var cs := Currents(rows);
    forall i, j | 0 <= i < j < |cs| ensures cs[i].timestamp < cs[j].timestamp {
      assert cs[i] == rows[i].value.current && cs[j] == rows[j].value.current;
    }
  }

  /** The forwarded record is refused downstream iff the rule found fraud. */
  lemma RefusedIffFraud(rule: Rule, env: Env, store: Store<Processed>, record: Record<Transaction>)
    requires Valid(store)
    requires Process(rule, env, store, record).Success?
    ensures IsRefused(Process(rule, env, store, record).value.forwarded.value)
      <==> Verdict(rule, env, record.value, WindowOf(store, record)) == Success(Fraud)
  {
  }
}

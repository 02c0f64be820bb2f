/** CCTxMerger: the processor that aggregates, per transaction id, the
    records the five rule processors emit. Its key-value store holds one
    processed record per key; each arriving record is copied, its score is
    added to the stored one, and the records of the window's transactions get
    the new total. A wall-clock punctuation forwards and deletes every stored
    record. */
module Merger {
  import opened OrderedSeq
  import opened Records

  /** The merger's key-value store. */
  type KV = map<string, Processed>

  /** `new ProcessedClientCCTransaction(p.getClientId(),
      p.getCurrentClientCCTransaction(), p.getLastCCTransactions())`: the
      copy keeps client, transaction and window (an unset window becomes an
      empty one) and starts its score at zero. */
  function Copy(p: Processed): (c: Processed)
    ensures c.clientId == p.clientId && c.current == p.current
    ensures c.lastTransactions.Some? && GetLastTransactions(c) == GetLastTransactions(p)
    ensures GetFraudScore(c) == 0.0
  {
    New(p.clientId, p.current, GetLastTransactions(p))
  }

  /** The record `updateRelatedTxFraudScore` stores for an existing entry
      `p`: a copy whose score is zero plus `score`. */
  function Rescored(p: Processed, score: real): (q: Processed)
    ensures q.clientId == p.clientId && q.current == p.current
    ensures q.lastTransactions.Some? && GetLastTransactions(q) == GetLastTransactions(p)
    ensures GetFraudScore(q) == score
  {
    var c := Copy(p);
    SetFraudScore(c, GetFraudScore(c) + score)
  }

  /** Rescoring twice with the same score is rescoring once. */
  lemma RescoredIdempotent(p: Processed, score: real)
    ensures Rescored(Rescored(p, score), score) == Rescored(p, score)
  {
  }

  /** The related entry's previous score does not survive the update. */
  lemma RescoredForgetsScore(p: Processed, q: Processed, score: real)
    requires p.clientId == q.clientId && p.current == q.current
    requires GetLastTransactions(p) == GetLastTransactions(q)
    ensures Rescored(p, score) == Rescored(q, score)
  {
  }

  /** `updateRelatedTxFraudScore(key, newScore)`: an existing entry is
      rescored to `newScore`; a missing one is not created. */
  function UpdateRelated(store: KV, key: string, newScore: real): (s': KV)
    ensures s'.Keys == store.Keys
    ensures forall k :: k in store && k != key ==> s'[k] == store[k]
    ensures key in store ==> s'[key] == Rescored(store[key], newScore)
  {
    if key in store then store[key := Rescored(store[key], newScore)] else store
  }

  /** Some transaction of `window` has the id `key`. */
  predicate Mentions(window: seq<Transaction>, key: string) {
    exists i :: 0 <= i < |window| && window[i].transactionId == key
  }

  /** The `forEach` over the window: every stored entry whose key is the id
      of a window transaction is rescored to `newScore`; every other entry is
      left alone, and no entry is created. */
  function UpdateAll(store: KV, window: seq<Transaction>, newScore: real): (s': KV)
    ensures s'.Keys == store.Keys
    ensures forall k :: k in store ==>
      s'[k] == if Mentions(window, k) then Rescored(store[k], newScore) else store[k]
    decreases |window|
  {
    if window == [] then store
    else
      var rest := window[1..];
      assert forall k :: Mentions(window, k) <==> window[0].transactionId == k || Mentions(rest, k) by {
        forall k
          ensures Mentions(window, k) <==> window[0].transactionId == k || Mentions(rest, k)
        {
          if Mentions(rest, k) {
            var i :| 0 <= i < |rest| && rest[i].transactionId == k;
            assert window[i + 1].transactionId == k;
          }
          if Mentions(window, k) && window[0].transactionId != k {
            var i :| 0 <= i < |window| && window[i].transactionId == k;
            assert rest[i - 1].transactionId == k;
          }
        }
      }
      UpdateAll(UpdateRelated(store, window[0].transactionId, newScore), rest, newScore)
  }

  /** `process`: the incoming record is copied with its own score; when the
      key is already stored, the copy's score becomes the sum of both scores
      and the window's related entries are rescored to that sum before the
      copy is put (so the key's own entry is the copy, even when the window
      mentions it). */
  function Process(store: KV, record: Record<Processed>): (s': KV)
    ensures s'.Keys == store.Keys + {record.key}
    ensures s'[record.key].clientId == record.value.clientId
    ensures s'[record.key].current == record.value.current
    ensures s'[record.key].lastTransactions.Some?
    ensures GetLastTransactions(s'[record.key]) == GetLastTransactions(record.value)
    ensures GetFraudScore(s'[record.key])
      == GetFraudScore(record.value) + (if record.key in store then GetFraudScore(store[record.key]) else 0.0)
    ensures forall k :: k in store && k != record.key ==>
      s'[k] == if record.key in store && Mentions(GetLastTransactions(record.value), k)
               then Rescored(store[k], GetFraudScore(s'[record.key]))
               else store[k]
  {
    var fraudScore := GetFraudScore(record.value);
    var transaction := SetFraudScore(Copy(record.value), fraudScore);
    if record.key in store then
      var newScore := GetFraudScore(transaction) + GetFraudScore(store[record.key]);
      var merged := SetFraudScore(transaction, newScore);
      UpdateAll(store, GetLastTransactions(merged), newScore)[record.key := merged]
    else
      store[record.key := transaction]
  }

  /** The first record for a key is stored as a copy carrying its own score,
      and nothing else changes. */
  lemma FirstArrival(store: KV, record: Record<Processed>)
    requires record.key !in store
    ensures Process(store, record) == store[record.key := Rescored(record.value, GetFraudScore(record.value))]
  {
  }

  /** Processing a sequence of records in arrival order. */
  function ProcessAll(store: KV, records: seq<Record<Processed>>): KV
  {
    if records == [] then store
    else Process(ProcessAll(store, records[..|records| - 1]), records[|records| - 1])
  }

  /** All records carry the key `key`. */
  predicate AllKeyed(records: seq<Record<Processed>>, key: string) {
    forall i :: 0 <= i < |records| ==> records[i].key == key
  }

  /** The values of a sequence of records. */
  function Values(records: seq<Record<Processed>>): (vs: seq<Processed>)
    ensures |vs| == |records|
    ensures forall i :: 0 <= i < |records| ==> vs[i] == records[i].value
  {
    if records == [] then [] else Values(records[..|records| - 1]) + [records[|records| - 1].value]
  }

  /** The aggregation the merger exists for: after the records of one
      transaction id arrive (one per rule processor), the entry for that id
      carries the sum of their scores on top of what was stored before, and
      the client, transaction and window of the last one. */
  lemma {:induction false} ScoresAccumulate(store: KV, records: seq<Record<Processed>>, key: string)
    requires records != [] && AllKeyed(records, key)
    ensures key in ProcessAll(store, records)
    ensures GetFraudScore(ProcessAll(store, records)[key])
      == (if key in store then GetFraudScore(store[key]) else 0.0) + TotalScore(Values(records))
    ensures ProcessAll(store, records)[key].current == records[|records| - 1].value.current
    ensures GetLastTransactions(ProcessAll(store, records)[key]) == GetLastTransactions(records[|records| - 1].value)
  {
    var init := records[..|records| - 1];
    var last := records[|records| - 1];
    assert Values(records)[..|records| - 1] == Values(init);
    var before := ProcessAll(store, init);
    if init == [] {
      assert before == store;
    } else {
      ScoresAccumulate(store, init, key);
    }
  }

  /** Keys are never removed by `process`, and only the record's key can be
      added. */
  lemma {:induction false} KeysGrow(store: KV, records: seq<Record<Processed>>)
    ensures store.Keys <= ProcessAll(store, records).Keys
    ensures forall k :: k in ProcessAll(store, records) ==>
      k in store || exists i :: 0 <= i < |records| && records[i].key == k
  {
    if records != [] {
      var init := records[..|records| - 1];
      KeysGrow(store, init);
      forall k | k in ProcessAll(store, records)
        ensures k in store || exists i :: 0 <= i < |records| && records[i].key == k
      {
        if k !in store && k != records[|records| - 1].key {
          var i :| 0 <= i < |init| && init[i].key == k;
          assert records[i].key == k;
        }
      }
    }
  }

  /** A record forwarded by the punctuation: the stored value under its key,
      stamped with its transaction's timestamp. */
  function Emitted(key: string, value: Processed): (r: Record<Processed>)
    ensures r.key == key && r.value == value
    ensures r.timestamp == value.current.timestamp
  {
    Record(key, value, value.current.timestamp)
  }

  /** The keys of forwarded records, in forwarding order. */
  function KeysOf(out: seq<Record<Processed>>): (ks: seq<string>)
    ensures |ks| == |out|
    ensures forall i :: 0 <= i < |out| ==> ks[i] == out[i].key
  {
    if out == [] then [] else [out[0].key] + KeysOf(out[1..])
  }

  /** Part of the punctuation loop's invariant: what is left in the store is
      unchanged, and every forwarded record shrank it by one. */
  predicate DrainsStore(store: KV, out: seq<Record<Processed>>, drained: KV) {
    && drained.Keys <= store.Keys
    && (forall k :: k in drained ==> drained[k] == store[k])
    && |out| + |drained| == |store|
  }

  /** Part of the punctuation loop's invariant: a stored key has been
      forwarded iff it was deleted, and no key twice. */
  predicate DrainsKeys(store: KV, out: seq<Record<Processed>>, drained: KV) {
    && (forall k :: k in store ==> (k in KeysOf(out) <==> k !in drained))
    && (forall k :: k in KeysOf(out) ==> k in store)
    && NoDups(KeysOf(out))
  }

  /** Part of the punctuation loop's invariant: each forwarded record is the
      stored entry under its key. */
  predicate DrainsValues(store: KV, out: seq<Record<Processed>>) {
    forall i :: 0 <= i < |out| ==> out[i].key in store && out[i] == Emitted(out[i].key, store[out[i].key])
  }

  lemma DrainStoreStep(store: KV, out: seq<Record<Processed>>, drained: KV, k: string)
    requires DrainsStore(store, out, drained) && k in drained
    ensures DrainsStore(store, out + [Emitted(k, drained[k])], drained - {k})
  {
    assert (drained - {k}).Keys == drained.Keys - {k};
  }

  lemma DrainKeysStep(store: KV, out: seq<Record<Processed>>, drained: KV, k: string)
    requires DrainsStore(store, out, drained) && DrainsKeys(store, out, drained) && k in drained
    ensures DrainsKeys(store, out + [Emitted(k, drained[k])], drained - {k})
  {
    assert KeysOf(out + [Emitted(k, drained[k])]) == KeysOf(out) + [k];
  }

  lemma DrainValuesStep(store: KV, out: seq<Record<Processed>>, drained: KV, k: string)
    requires DrainsStore(store, out, drained) && DrainsValues(store, out) && k in drained
    ensures DrainsValues(store, out + [Emitted(k, drained[k])])
  {
  }

  /** `punctuate`: every stored entry is forwarded exactly once, in the
      store's iteration order (left open), and deleted. */
  method Punctuate(store: KV) returns (out: seq<Record<Processed>>, drained: KV)
    ensures drained == map[]
    ensures |out| == |store|
    ensures forall k :: k in store <==> k in KeysOf(out)
    ensures NoDups(KeysOf(out))
    ensures forall i :: 0 <= i < |out| ==> out[i].key in store && out[i] == Emitted(out[i].key, store[out[i].key])
  {
    out := [];
    drained := store;
    while drained != map[]
      invariant DrainsStore(store, out, drained)
      invariant DrainsKeys(store, out, drained)
      invariant DrainsValues(store, out)
      decreases |drained|
    {
      var k :| k in drained;
      DrainStoreStep(store, out, drained, k);
      DrainKeysStep(store, out, drained, k);
      DrainValuesStep(store, out, drained, k);
      out := out + [Emitted(k, drained[k])];
      drained := drained - {k};
    }
  }
}

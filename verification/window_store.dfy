/** The Kafka window store each rule processor owns, reduced to the contract
    the processor relies on: a map from (key, timestamp) to value in which a
    put overwrites the same (key, timestamp) (duplicates are not retained),
    and a range fetch that returns one key's entries with timestamps in
    [from, to], both ends inclusive, in ascending timestamp order. Rows are
    kept per key in ascending timestamp order. */
module WindowStore {
  import opened Wrappers

  datatype Row<V> = Row(timestamp: int, value: V)

  datatype Store<V> = Store(rows: map<string, seq<Row<V>>>)

  predicate Ascending<V(!new)>(rs: seq<Row<V>>) {
    forall i, j :: 0 <= i < j < |rs| ==> rs[i].timestamp < rs[j].timestamp
  }

  predicate Valid<V(!new)>(s: Store<V>) {
    forall key :: key in s.rows ==> Ascending(s.rows[key])
  }

  function Empty<V(!new)>(): (s: Store<V>)
    ensures Valid(s)
  {
    Store(map[])
  }

  function RowsOf<V(!new)>(s: Store<V>, key: string): seq<Row<V>> {
    if key in s.rows then s.rows[key] else []
  }

  /** The value a row sequence holds at `timestamp`, if any. */
  function Lookup<V(!new)>(rs: seq<Row<V>>, timestamp: int): Option<V> {
    if rs == [] then None
    else if rs[0].timestamp == timestamp then Some(rs[0].value)
    else Lookup(rs[1..], timestamp)
  }

  /** The value stored under (key, timestamp), if any. */
  function Get<V(!new)>(s: Store<V>, key: string, timestamp: int): Option<V> {
    Lookup(RowsOf(s, key), timestamp)
  }

  lemma {:induction false} LookupMember<V(!new)>(rs: seq<Row<V>>, t: int, v: V)
    requires Ascending(rs)
    ensures Lookup(rs, t) == Some(v) <==> Row(t, v) in rs
    decreases |rs|
  {
    if rs != [] {
      assert Ascending(rs[1..]) by {
        forall i, j | 0 <= i < j < |rs[1..]| ensures rs[1..][i].timestamp < rs[1..][j].timestamp {
          assert rs[1..][i] == rs[i + 1] && rs[1..][j] == rs[j + 1];
        }
      }
      LookupMember(rs[1..], t, v);
      assert rs == [rs[0]] + rs[1..];
      if rs[0].timestamp == t {
        forall k | 0 <= k < |rs[1..]| ensures rs[1..][k].timestamp != t {
          assert rs[1..][k] == rs[k + 1];
        }
      }
    }
  }

  /** Places `row` by timestamp, replacing a row with the same timestamp. */
  function InsertRow<V(!new)>(rs: seq<Row<V>>, row: Row<V>): (rs': seq<Row<V>>)
    requires Ascending(rs)
    ensures Ascending(rs')
    ensures forall t :: Lookup(rs', t) == if t == row.timestamp then Some(row.value) else Lookup(rs, t)
    ensures forall k :: 0 <= k < |rs'| ==> rs'[k] == row || rs'[k] in rs
    decreases |rs|
  {
    if rs == [] then [row]
    else if row.timestamp < rs[0].timestamp then [row] + rs
    else if row.timestamp == rs[0].timestamp then [row] + rs[1..]
    else
      AscendingTail(rs);
      var tail := InsertRow(rs[1..], row);
      InsertAfterHead(rs, row, tail);
      [rs[0]] + tail
  }

  /** Putting the head back in front of the tail's insertion result gives the
      insertion into the whole sequence. */
  lemma InsertAfterHead<V(!new)>(rs: seq<Row<V>>, row: Row<V>, tail: seq<Row<V>>)
    requires rs != [] && Ascending(rs) && rs[0].timestamp < row.timestamp
    requires Ascending(tail)
    requires forall t :: Lookup(tail, t) == if t == row.timestamp then Some(row.value) else Lookup(rs[1..], t)
    requires forall k :: 0 <= k < |tail| ==> tail[k] == row || tail[k] in rs[1..]
    ensures Ascending([rs[0]] + tail)
    ensures forall t :: Lookup([rs[0]] + tail, t) == if t == row.timestamp then Some(row.value) else Lookup(rs, t)
    ensures forall k :: 0 <= k < |[rs[0]] + tail| ==> ([rs[0]] + tail)[k] == row || ([rs[0]] + tail)[k] in rs
  {
  }

  /** `put(key, value, timestamp)`: overwrites (key, timestamp) and nothing else. */
  function Put<V(!new)>(s: Store<V>, key: string, value: V, timestamp: int): (s': Store<V>)
    requires Valid(s)
    ensures Valid(s')
    ensures forall k, t :: Get(s', k, t) == if k == key && t == timestamp then Some(value) else Get(s, k, t)
    ensures forall k :: k != key ==> RowsOf(s', k) == RowsOf(s, k)
  {
    Store(s.rows[key := InsertRow(RowsOf(s, key), Row(timestamp, value))])
  }

  /** The tail of an ascending sequence is ascending and lies after its head. */
  lemma AscendingTail<V(!new)>(rs: seq<Row<V>>)
    requires rs != []
    ensures Ascending(rs) ==> Ascending(rs[1..])
    ensures Ascending(rs) ==> forall row :: row in rs[1..] ==> rs[0].timestamp < row.timestamp
  {
    if Ascending(rs) {
      forall i, j | 0 <= i < j < |rs[1..]| ensures rs[1..][i].timestamp < rs[1..][j].timestamp {
        assert rs[1..][i] == rs[i + 1] && rs[1..][j] == rs[j + 1];
      }
      forall row | row in rs[1..] ensures rs[0].timestamp < row.timestamp {
        var m :| 0 <= m < |rs[1..]| && rs[1..][m] == row;
        assert rs[1..][m] == rs[m + 1];
      }
    }
  }

  /** A row before every row of an ascending sequence extends it. */
  lemma AscendingCons<V(!new)>(row: Row<V>, rs: seq<Row<V>>)
    requires Ascending(rs)
    requires forall x :: x in rs ==> row.timestamp < x.timestamp
    ensures Ascending([row] + rs)
  {
    var r := [row] + rs;
    forall i, j | 0 <= i < j < |r| ensures r[i].timestamp < r[j].timestamp {
      assert r[j] == rs[j - 1];
      if i > 0 {
        assert r[i] == rs[i - 1];
      } else {
        assert rs[j - 1] in rs;
      }
    }
  }

  /** The rows with timestamps in [from, to], in order. */
  function InRange<V(!new)>(rs: seq<Row<V>>, from: int, to: int): (r: seq<Row<V>>)
    ensures forall row :: row in r <==> row in rs && from <= row.timestamp <= to
    ensures Ascending(rs) ==> Ascending(r)
    decreases |rs|
  {
    if rs == [] then []
    else
      var tail := InRange(rs[1..], from, to);
      AscendingTail(rs);
      assert rs == [rs[0]] + rs[1..];
      if from <= rs[0].timestamp <= to then
        if Ascending(rs) then
          AscendingCons(rs[0], tail);
          [rs[0]] + tail
        else
          [rs[0]] + tail
      else tail
  }

  /** `fetch(key, from, to)`: exactly the stored (timestamp, value) pairs of
      `key` with from <= timestamp <= to, ascending by timestamp. */
  function Fetch<V(!new)>(s: Store<V>, key: string, from: int, to: int): (r: seq<Row<V>>)
    requires Valid(s)
    ensures Ascending(r)
    ensures forall t, v :: Row(t, v) in r <==> from <= t <= to && Get(s, key, t) == Some(v)
  {
    var rs := RowsOf(s, key);
    assert Ascending(rs);
    forall t, v ensures Lookup(rs, t) == Some(v) <==> Row(t, v) in rs {
      LookupMember(rs, t, v);
    }
    InRange(rs, from, to)
  }
}

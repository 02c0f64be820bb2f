# Credit-card fraud detection, modelled in Dafny

A model of the core of a Kafka Streams fraud-detection pipeline for credit-card
transactions. Transactions are keyed by client. Five stateful rule processors each
keep a 30-minute window store per client:

- geographic distance;
- multiple IP addresses;
- small/large amount pattern;
- spending velocity;
- transaction frequency.

Each processor evaluates the incoming transaction against its window, scores it
with the rule's severity on fraud, stores it and forwards it. The five scored
streams are re-keyed by transaction id and combined. Combining is done either by
windowed joins (`ProcessedClientCCJoiner`, which sums the scores) or by the
`CCTxMerger` processor, which aggregates scores per transaction id in a key-value
store. A punctuation then drains that store. A record with a positive total
score is refused.

Supporting code is modelled too:

- the lock-free insertion-ordered set `ConcurrentUnboundedOrderedSet` and its JSON adapter;
- the address utilities in `IpUtils`, which decide whether an address is public
  and whether two addresses are the same;
- the duration helpers in `InstantUtils`.

Modules, one per source component:

- `OrderedSeq`: the abstract view of an ordered set (a duplicate-free
  sequence) and the sequence functions the contracts are stated with.
- `OrderedSet`: the set's concrete state. It holds a map from element to
  entry, an append-only heap of entries with their `removed` flag, and a deque
  of entry ids. The abstraction `Abs` is the filter that `toList` applies: an
  entry is listed when it is not removed and the map still points to it. Every
  operation is a function or a value-returning method on that state, with a
  contract stated on `Abs`.
- `OrderedSetAdapter`: JSON array in and out of the set.
- `IpUtils`:
  - the parser enters as a parameter;
  - the byte tests of `isPublic` are checked against CIDR prefixes written
    independently;
  - normalised-byte equality is modelled, including IPv4-mapped IPv6 addresses;
  - `areSamePublicIP` is modelled with its order of failures.
- `InstantUtils`: signed and absolute durations.
- `Records`: the processed-record type with its null-defaulting getters, and
  the transaction type.
- `GeoCheck`, `MultipleIpCheck`, `PatternCheck`, `VelocityCheck`,
  `HighFrequencyCheck`: the five rule evaluators and their severities.
- `WindowStore`: the store contract the processors rely on. `put` overwrites
  the same (key, timestamp); `fetch` is an inclusive range, ascending by time.
- `WindowProcessor`: the shared `process` of the five rule processors.
- `Merger`: `CCTxMerger` (`process`, `updateRelatedTxFraudScore`, `punctuate`).
- `Joiner`: the value joiner and the join chain of the topology.

Two places where the design intent and the code part ways are modelled as the
code is written:

- **The merger's related-entry update replaces the score; it does not add to
  it.** `updateRelatedTxFraudScore` rebuilds the stored record through the
  three-argument constructor, which starts the score at zero, and then adds the
  new total to that zero. A related entry therefore ends up with exactly the
  new total, and its earlier score is lost (`Merger.Rescored`,
  `Merger.RescoredForgetsScore`).
- **The velocity rule takes "first" and "last" by position in the window, not
  by time** (`VelocityCheck.PositionNotTime`). In a store built only by `process`, every
  record sits under its own transaction's timestamp, and there the window is in
  strictly increasing timestamp order (`WindowProcessor.WindowChronological`),
  so position and time agree. They part only when a transaction is stored at a
  timestamp other than its own.

## Model

| member | source | states |
|---|---|---|
| OrderedSet.Empty | src/main/java/szp/rafael/cct/collection/ConcurrentUnboundedOrderedSet.java:32 | a new set is valid and lists nothing |
| OrderedSet.Contains | src/main/java/szp/rafael/cct/collection/ConcurrentUnboundedOrderedSet.java:150-153 | `contains` is true exactly for the listed elements |
| OrderedSet.Size | src/main/java/szp/rafael/cct/collection/ConcurrentUnboundedOrderedSet.java:158-160 | `size` (the map size) equals the length of the listing |
| OrderedSet.AbsNoDups | src/main/java/szp/rafael/cct/collection/ConcurrentUnboundedOrderedSet.java:20-30 | the listing never holds an element twice |
| OrderedSet.AbsMembers | src/main/java/szp/rafael/cct/collection/ConcurrentUnboundedOrderedSet.java:22-23 | an element is listed iff the map holds it |
| OrderedSet.Add | src/main/java/szp/rafael/cct/collection/ConcurrentUnboundedOrderedSet.java:50-60 | `add` returns true iff the element was absent; then it is listed last, otherwise the listing is unchanged |
| OrderedSet.AddOrMoveToLast | src/main/java/szp/rafael/cct/collection/ConcurrentUnboundedOrderedSet.java:67-94 | `addOrMoveToLast` returns true iff the element was absent, and afterwards the element is listed last and every other element keeps its order |
| OrderedSet.RemoveOldest | src/main/java/szp/rafael/cct/collection/ConcurrentUnboundedOrderedSet.java:100-118 | `removeOldest` returns null on an empty set; otherwise it returns the first listed element and the listing loses exactly that head, stale deque entries being skipped |
| OrderedSet.PeekOldest | src/main/java/szp/rafael/cct/collection/ConcurrentUnboundedOrderedSet.java:123-130 | `peekOldest` returns the first listed element, or null when the set is empty |
| OrderedSet.Remove | src/main/java/szp/rafael/cct/collection/ConcurrentUnboundedOrderedSet.java:137-145 | `remove` returns true iff the element was listed, and afterwards the listing is the old one without it |
| OrderedSet.Clear | src/main/java/szp/rafael/cct/collection/ConcurrentUnboundedOrderedSet.java:165-171 | after `clear` nothing is listed, the size is 0 and no element is contained |
| OrderedSet.ToList | src/main/java/szp/rafael/cct/collection/ConcurrentUnboundedOrderedSet.java:176-184 | the snapshot loop returns the listing: current, non-removed entries in deque order, without duplicates |
| OrderedSet.RemoveIf | src/main/java/szp/rafael/cct/collection/ConcurrentUnboundedOrderedSet.java:199-214 | `removeIf` keeps exactly the elements failing the filter, in order, and returns true iff some element passed it |
| OrderedSet.Filter | src/main/java/szp/rafael/cct/collection/ConcurrentUnboundedOrderedSet.java:216-222 | `filter` returns the elements satisfying the predicate in listing order, without duplicates; this is exactly what `removeIf` of the opposite predicate would leave |
| OrderedSet.KeepOnlyLast | src/main/java/szp/rafael/cct/collection/ConcurrentUnboundedOrderedSet.java:228-234 | a negative count is rejected; otherwise the result lists the last min(num, size) elements of the old listing, in order |
| OrderedSet.EvictOldest | src/main/java/szp/rafael/cct/collection/ConcurrentUnboundedOrderedSet.java:230-233 | removing the oldest element while more than num remain leaves the last min(num, size) elements of the old listing, in order |
| OrderedSet.AddAll | src/main/java/szp/rafael/cct/collection/ConcurrentUnboundedOrderedSet.java:37-41 | building from a collection lists its distinct elements, each at its first occurrence |
| OrderedSet.MoveThenRemoveExample | src/test/java/szp/rafael/cct/collection/ConcurrentUnboundedOrderedSetGsonTest.java:62-77 | the test sequence on C, D, E: moving D to the end gives C, E, D; removing the elements starting with D returns true and leaves C, E |
| OrderedSet.Apply | src/main/java/szp/rafael/cct/collection/ConcurrentUnboundedOrderedSet.java:50-94 | one `add` or `addOrMoveToLast` keeps the set valid and adds exactly its element to the contained elements |
| OrderedSet.RunElements | src/test/java/szp/rafael/cct/collection/ConcurrentUnboundedOrderedSetGsonTest.java:116-123 | after a run of `add` and `addOrMoveToLast` calls, the set holds exactly its earlier elements plus every submitted value |
| OrderedSet.RunFromEmpty | src/test/java/szp/rafael/cct/collection/ConcurrentUnboundedOrderedSetGsonTest.java:137-140 | after such a run from an empty set, the listing has no duplicates and the size is the number of distinct submitted values |
| OrderedSet.RunSizeBound | src/test/java/szp/rafael/cct/collection/ConcurrentUnboundedOrderedSetGsonTest.java:116-143 | when every submitted value lies in [0, n), the size is at most n |
| OrderedSetAdapter.Serialize | src/main/java/szp/rafael/cct/collection/adapters/ConcurrentUnboundedOrderedSetAdapter.java:25-36 | `serialize` writes an array that is the `toList` listing, oldest first, so it holds each contained element exactly once |
| OrderedSetAdapter.Deserialize | src/main/java/szp/rafael/cct/collection/adapters/ConcurrentUnboundedOrderedSetAdapter.java:38-57 | `deserialize` rejects every non-array; an array yields a valid set containing exactly its elements |
| OrderedSetAdapter.DeserializeListing | src/main/java/szp/rafael/cct/collection/adapters/ConcurrentUnboundedOrderedSetAdapter.java:46-55 | reading an array succeeds and lists its elements with repeats dropped, each at its first position |
| OrderedSetAdapter.DeserializeRepeat | src/main/java/szp/rafael/cct/collection/adapters/ConcurrentUnboundedOrderedSetAdapter.java:46-55 | a repeated array element is read once, at its first position |
| OrderedSetAdapter.DeserializeSize | src/main/java/szp/rafael/cct/collection/adapters/ConcurrentUnboundedOrderedSetAdapter.java:46-55 | after reading, the size is the number of distinct array elements |
| OrderedSetAdapter.RoundTrip | src/main/java/szp/rafael/cct/collection/adapters/ConcurrentUnboundedOrderedSetAdapter.java:25-57 | writing a set and reading it back gives the same listing |
| OrderedSetAdapter.SerializeExample | src/test/java/szp/rafael/cct/collection/ConcurrentUnboundedOrderedSetGsonTest.java:43-58 | adding A, B, C and writing gives the array ["A","B","C"] of size 3 |
| IpUtils.IsIPv4Mapped | src/main/java/szp/rafael/cct/utils/IpUtils.java:71-77 | the byte test holds exactly for the prefix ::ffff:0:0/96 of section 2.5.5.2 of RFC 4291 |
| IpUtils.NormalizedBytes | src/main/java/szp/rafael/cct/utils/IpUtils.java:60-69 | an IPv4-mapped IPv6 address normalises to the 4 bytes whose mapped form (::ffff:0:0/96 prefix) it is; every other address keeps its raw bytes |
| IpUtils.AddressesEqual | src/main/java/szp/rafael/cct/utils/IpUtils.java:40-44 | an IPv4 address equals an IPv6 address (either way round) iff the IPv6 one is its IPv4-mapped form |
| IpUtils.MappedForm | src/main/java/szp/rafael/cct/utils/IpUtils.java:60-77 | 16 bytes that carry the mapped prefix and end with given 4 bytes are exactly the mapped form of those 4 bytes |
| IpUtils.AddressesEqualEquivalence | src/main/java/szp/rafael/cct/utils/IpUtils.java:40-44 | address equality is reflexive, symmetric and transitive |
| IpUtils.MappedEqualsPlain | src/main/java/szp/rafael/cct/utils/IpUtils.java:40-44 | ::ffff:a.b.c.d equals a.b.c.d |
| IpUtils.AddressesEqualBytes | src/main/java/szp/rafael/cct/utils/IpUtils.java:40-44 | for non-mapped addresses, equality is byte equality, so IPv4 never equals a non-mapped IPv6 address |
| IpUtils.IsPublic | src/main/java/szp/rafael/cct/utils/IpUtils.java:86-133 | an IPv4 address is public iff no library predicate excludes it and it lies outside 10/8, 172.16/12, 192.168/16, 100.64/10, 0/8 and 255.255.255.255; an IPv6 address iff no library predicate excludes it and it lies outside fc00::/7 (section 3.1 of RFC 4193); the ranges are written as CIDR prefixes, independently of the byte tests |
| IpUtils.PublicV4Bytes | src/main/java/szp/rafael/cct/utils/IpUtils.java:95-118 | the chain of IPv4 byte tests rejects exactly the addresses inside the six reserved CIDR prefixes |
| IpUtils.UlaMask | src/main/java/szp/rafael/cct/utils/IpUtils.java:121-122 | masking the first byte with 0xFE gives 0xFC exactly for the bytes whose top seven bits are 1111110 |
| IpUtils.LoopbackNotPublic | src/main/java/szp/rafael/cct/utils/IpUtils.java:86-91 | the loopback fallback address is not public |
| IpUtils.AddressesEqualText | src/main/java/szp/rafael/cct/utils/IpUtils.java:34-38 | comparison of two texts succeeds iff both parse, and then answers normalised-byte equality |
| IpUtils.AreSamePublicIp | src/main/java/szp/rafael/cct/utils/IpUtils.java:16-28 | succeeds iff both texts parse to public addresses, then answers equality; otherwise it raises the first failure in order: parse of ip1, parse of ip2, ip1 not public, ip2 not public |
| InstantUtils.Difference | src/main/java/szp/rafael/cct/utils/InstantUtils.java:20-22 | start plus the difference is end |
| InstantUtils.AbsoluteDifference | src/main/java/szp/rafael/cct/utils/InstantUtils.java:27-30 | the absolute difference is non-negative and is the difference or its negation |
| InstantUtils.AbsoluteDifferenceSymmetric | src/main/java/szp/rafael/cct/utils/InstantUtils.java:27-30 | the absolute difference ignores argument order |
| InstantUtils.AbsoluteDifferenceZero | src/main/java/szp/rafael/cct/utils/InstantUtils.java:27-30 | the absolute difference is zero iff the instants are equal |
| InstantUtils.DifferenceChain | src/main/java/szp/rafael/cct/utils/InstantUtils.java:20-22 | differences add up along a chain and change sign when reversed |
| Records.New | src/main/java/szp/rafael/cct/model/creditCard/ProcessedClientCCTransaction.java:15-24 | the three-argument constructor keeps client, transaction and window and starts the score at zero |
| Records.SetFraudScore | src/main/java/szp/rafael/cct/model/creditCard/ProcessedClientCCTransaction.java:60-62 | after setting, the score reads back as the value set, and client, transaction and window are untouched |
| Records.IsRefused | src/main/java/szp/rafael/cct/stream/topology/CreditCardTransactionTopologyFinal.java:162-163 | a record goes to the fraud branch iff its score is set and positive; a record with an unset score is never refused |
| Records.SetThenGet | src/main/java/szp/rafael/cct/model/creditCard/ProcessedClientCCTransaction.java:53-62 | the score read back after setting it is the value set, and the window is untouched |
| Records.AddToWindow | src/main/java/szp/rafael/cct/model/creditCard/ProcessedClientCCTransaction.java:42-47 | adding through the getter inserts into the record's own window when it has one, and is lost when the window is unset |
| GeoCheck.Evaluate | src/main/java/szp/rafael/cct/stream/processor/GeoWindowCheck.java:14-30 | an empty window is never fraud; otherwise fraud iff the summed distance strictly exceeds 30 km |
| GeoCheck.ThresholdStrict | src/main/java/szp/rafael/cct/stream/processor/GeoWindowCheck.java:25-27 | a summed distance of exactly 30 km is not fraud |
| GeoCheck.OneFarTransaction | src/main/java/szp/rafael/cct/stream/processor/GeoWindowCheck.java:19-27 | with non-negative distances, one window transaction farther than 30 km makes the verdict fraud |
| GeoCheck.DistanceSumBoundsEach | src/main/java/szp/rafael/cct/stream/processor/GeoWindowCheck.java:19-23 | with non-negative distances, the sum is at least each single distance |
| GeoCheck.SumOrderIndependent | src/main/java/szp/rafael/cct/stream/processor/GeoWindowCheck.java:19-23 | the summed distance depends only on the multiset of window transactions |
| GeoCheck.OrderIndependent | src/main/java/szp/rafael/cct/stream/processor/GeoWindowCheck.java:14-30 | the verdict does not depend on the order of the window |
| HighFrequencyCheck.Evaluate | src/main/java/szp/rafael/cct/stream/processor/HighFrequencyWindowCheck.java:16-23 | fraud iff the window holds ten or more transactions |
| HighFrequencyCheck.Boundary | src/main/java/szp/rafael/cct/stream/processor/HighFrequencyWindowCheck.java:9-20 | nine window transactions are not fraud, ten are |
| HighFrequencyCheck.Monotone | src/main/java/szp/rafael/cct/stream/processor/HighFrequencyWindowCheck.java:16-22 | a larger window never withdraws a fraud verdict |
| PatternCheck.Evaluate | src/main/java/szp/rafael/cct/stream/processor/PatternWindowCheck.java:19-39 | fraud iff some window amount and the current amount are one below 3.0 and the other above 500.0, in either order |
| PatternCheck.MidRangeNeverFraud | src/main/java/szp/rafael/cct/stream/processor/PatternWindowCheck.java:29-35 | a current amount in [3.0, 500.0] is never fraud, whatever the window |
| PatternCheck.BoundsStrict | src/main/java/szp/rafael/cct/stream/processor/PatternWindowCheck.java:11-12 | the thresholds are strict: a window whose amounts are all exactly 3.0 or exactly 500.0 is never fraud, whatever the current amount |
| PatternCheck.SameClassNeverFires | src/main/java/szp/rafael/cct/stream/processor/PatternWindowCheck.java:29-35 | a window whose amounts are all in the current amount's class is not fraud |
| VelocityCheck.ElapsedMs | src/main/java/szp/rafael/cct/stream/processor/VelocityWindowCheck.java:56-59 | the elapsed time is positive, and is the gap itself when the last timestamp follows the first |
| VelocityCheck.ExceedsRate | src/main/java/szp/rafael/cct/stream/processor/VelocityWindowCheck.java:53-71 | the rate exceeds 1000 per minute iff total times 60000 exceeds 1000 times the elapsed milliseconds |
| VelocityCheck.Evaluate | src/main/java/szp/rafael/cct/stream/processor/VelocityWindowCheck.java:18-37 | an empty window is never fraud; otherwise fraud iff the window total, over the time from the first to the last listed transaction, exceeds 1000 per minute |
| VelocityCheck.SingleTransaction | src/main/java/szp/rafael/cct/stream/processor/VelocityWindowCheck.java:26-33 | a one-transaction window is rated over one second: fraud iff amount times 60 exceeds 1000 |
| VelocityCheck.OneMinuteExamples | src/main/java/szp/rafael/cct/stream/processor/VelocityWindowCheck.java:53-71 | 2000 spent over one minute is fraud, 500 is not |
| VelocityCheck.PositionNotTime | src/main/java/szp/rafael/cct/stream/processor/VelocityWindowCheck.java:26-27 | first and last are taken by position: a window whose last timestamp does not follow its first is rated over one second |
| MultipleIpCheck.Evaluate | src/main/java/szp/rafael/cct/stream/processor/MultipleIPWindowCheck.java:19-22 | an empty window is not fraud |
| MultipleIpCheck.AllPublicVerdict | src/main/java/szp/rafael/cct/stream/processor/MultipleIPWindowCheck.java:23-37 | when every address parses and is public: fraud iff more than four window addresses differ from the current one |
| MultipleIpCheck.SameAddressNotFraud | src/main/java/szp/rafael/cct/stream/processor/MultipleIPWindowCheck.java:23-37 | a window of public addresses all equal to the current public address is not fraud |
| MultipleIpCheck.NonPublicWindowAddress | src/main/java/szp/rafael/cct/stream/processor/MultipleIPWindowCheck.java:24-28 | with a public current address, a window address that is not public or does not parse (hence loopback) makes the verdict fraud |
| MultipleIpCheck.NonPublicCurrentAddress | src/main/java/szp/rafael/cct/stream/processor/MultipleIPWindowCheck.java:24-31 | with a current address that is not public or does not parse, the first window transaction decides: fraud if its address is not public, otherwise the comparison raises the error for the current address |
| WindowStore.Put | src/main/java/szp/rafael/cct/stream/processor/AbstractWindowProcessor.java:84 | `put` stores the value under (key, timestamp), replacing any earlier one there, and changes no other key or timestamp |
| WindowStore.Fetch | src/main/java/szp/rafael/cct/stream/processor/AbstractWindowProcessor.java:68 | `fetch` returns exactly the stored rows of the key with timestamps in [from, to], both inclusive, ascending by timestamp |
| WindowProcessor.Severity | src/main/java/szp/rafael/cct/stream/processor/AbstractWindowProcessor.java:22-23 | each rule's severity lies in (0, 1] |
| WindowProcessor.Verdict | src/main/java/szp/rafael/cct/stream/processor/AbstractWindowProcessor.java:22 | only the address rule can fail |
| WindowProcessor.FetchWindow | src/main/java/szp/rafael/cct/stream/processor/AbstractWindowProcessor.java:62-68 | the fetch returns exactly the client's stored rows with timestamps from the record's timestamp minus 30 minutes up to the transaction's timestamp |
| WindowProcessor.FetchWindowAscending | src/main/java/szp/rafael/cct/stream/processor/AbstractWindowProcessor.java:68 | the fetched rows are in strictly ascending timestamp order |
| WindowProcessor.Collect | src/main/java/szp/rafael/cct/stream/processor/AbstractWindowProcessor.java:70-75 | the fetch loop inserts each fetched record's transaction into the window, in fetch order, and changes nothing else |
| WindowProcessor.Process | src/main/java/szp/rafael/cct/stream/processor/AbstractWindowProcessor.java:58-87 | processing fails iff the rule's evaluation fails; otherwise the forwarded record keeps key and timestamp and carries the transaction, its 30-minute window and the rule's severity on fraud (0 otherwise), and the store gains that record at the transaction's timestamp, with every other entry and key unchanged |
| WindowProcessor.WindowMembers | src/main/java/szp/rafael/cct/stream/processor/AbstractWindowProcessor.java:62-76 | a transaction is in the window iff a record of the client stored at a timestamp in [record time - 30 min, transaction time] carries it |
| WindowProcessor.WindowNoDups | src/main/java/szp/rafael/cct/stream/processor/AbstractWindowProcessor.java:64-75 | the window holds no transaction twice |
| WindowProcessor.WindowExcludesCurrent | src/main/java/szp/rafael/cct/stream/processor/AbstractWindowProcessor.java:68-84 | the window is read before the record is stored, so it lacks the current transaction unless an earlier record carries it |
| WindowProcessor.OnlyOwnKeyRead | src/main/java/szp/rafael/cct/stream/processor/AbstractWindowProcessor.java:60-84 | stores that agree on the client key give the same outcome, forwarded record and rows for that key |
| WindowProcessor.RefusedIffFraud | src/main/java/szp/rafael/cct/stream/processor/AbstractWindowProcessor.java:78-82 | the forwarded record has a positive score iff the rule found fraud |
| WindowProcessor.ProcessKeepsStamped | src/main/java/szp/rafael/cct/stream/processor/AbstractWindowProcessor.java:84 | `process` stores each record under its own transaction's timestamp, so a store where every record sits under its transaction's timestamp stays so |
| WindowProcessor.WindowChronological | src/main/java/szp/rafael/cct/stream/processor/AbstractWindowProcessor.java:62-76 | in such a store the window lists its transactions in strictly increasing timestamp order |
| WindowProcessor.ChronologicalRows | src/main/java/szp/rafael/cct/stream/processor/AbstractWindowProcessor.java:70-75 | ascending rows whose records carry their own timestamps are collected into a window in strictly increasing timestamp order |
| Merger.Copy | src/main/java/szp/rafael/cct/stream/processor/CCTxMerger.java:40 | the copy keeps client, transaction and window (an unset window becomes empty) and starts at score zero |
| Merger.Rescored | src/main/java/szp/rafael/cct/stream/processor/CCTxMerger.java:61-68 | the related record keeps client, transaction and window, and its score becomes exactly the new total |
| Merger.RescoredIdempotent | src/main/java/szp/rafael/cct/stream/processor/CCTxMerger.java:61-68 | rescoring twice to the same total is rescoring once |
| Merger.RescoredForgetsScore | src/main/java/szp/rafael/cct/stream/processor/CCTxMerger.java:64-65 | the related record's previous score does not survive the update |
| Merger.UpdateRelated | src/main/java/szp/rafael/cct/stream/processor/CCTxMerger.java:61-68 | a stored key is rescored, a missing key is not created, and every other entry is unchanged |
| Merger.UpdateAll | src/main/java/szp/rafael/cct/stream/processor/CCTxMerger.java:46 | exactly the stored entries whose key is the id of a window transaction are rescored; no key is added or removed |
| Merger.Process | src/main/java/szp/rafael/cct/stream/processor/CCTxMerger.java:38-49 | the key ends up holding a copy of the incoming record whose score is its own plus the stored one; when the key was stored, the window's related entries get that total; every other entry is unchanged and only the key can be added |
| Merger.FirstArrival | src/main/java/szp/rafael/cct/stream/processor/CCTxMerger.java:38-48 | the first record for a key is stored as a copy with its own score, and nothing else changes |
| Merger.ScoresAccumulate | src/main/java/szp/rafael/cct/stream/processor/CCTxMerger.java:38-49 | after several records arrive for one id, its entry holds the earlier stored score plus the sum of their scores, with the last record's transaction and window |
| Merger.KeysGrow | src/main/java/szp/rafael/cct/stream/processor/CCTxMerger.java:38-49 | processing never removes a key and only adds keys of processed records |
| Merger.Punctuate | src/main/java/szp/rafael/cct/stream/processor/CCTxMerger.java:51-59 | punctuation forwards every stored entry exactly once, under its key and with its transaction's timestamp, and leaves the store empty |
| Joiner.Join | src/main/java/szp/rafael/cct/stream/join/ProcessedClientCCJoiner.java:11-14 | the joined record has the left record's client and transaction, an empty window, and the sum of both scores |
| Joiner.RightScoreOnly | src/main/java/szp/rafael/cct/stream/join/ProcessedClientCCJoiner.java:11-14 | only the right record's score matters |
| Joiner.Associative | src/main/java/szp/rafael/cct/stream/join/ProcessedClientCCJoiner.java:11-14 | joins may be bracketed either way |
| Joiner.ChainSumsScores | src/main/java/szp/rafael/cct/stream/join/ProcessedClientCCJoiner.java:11-14 | a chain of joins carries the first record's client and transaction, an empty window and the sum of all scores, so it is refused iff that sum is positive |

## Left out

- Kafka wiring: topology construction, serdes, repartitioning, topics,
  `init`, and the processor suppliers. The join windows are left out too.
  `Joiner.ChainSumsScores` states what a chain of joins computes once records
  meet, not which records meet.
- The window store's retention, segments and grace handling, and its iteration
  order beyond "ascending by timestamp". The store is modelled by its contract
  only.
- Wall-clock scheduling of the merger's punctuation, and the store's key
  iteration order during it. `Merger.Punctuate` picks keys in an unspecified
  order.
- Concurrency of the ordered set. The CAS retry loops of `addOrMoveToLast` and
  `removeOldest` are modelled as their single-threaded outcome.
  `removeIf`'s iteration over a concurrently changing map is modelled the same
  way. The concurrent stress test's promises are stated for the
  sequential runs of `add` and `addOrMoveToLast`: no duplicates and a size
  equal to the number of distinct submitted values
  (`OrderedSet.RunFromEmpty`), hence at most n for values in [0, n)
  (`OrderedSet.RunSizeBound`).
- Null elements, predicates and collections of the ordered set. The source
  rejects a null element or predicate with `requireNonNull`
  (ConcurrentUnboundedOrderedSet.java:29, 51, 68) and skips a null collection
  in the constructor (line 38). Dafny values are never null, so these paths do
  not exist in the model.
- The ordered set's `iterator` returns the `toList` snapshot and adds nothing.
- `InetAddress.getByName` (parsing, host-name resolution) and the five library
  predicates (`isAnyLocalAddress` and the others) are foreign. They enter as a
  parser parameter and as flags carried by the parsed address.
- The haversine distance (`GeoUtils`) is foreign. It enters as a function
  parameter; `GeoCheck.OneFarTransaction` assumes only that it is non-negative.
- `IpUtils.main` and `InstantUtils.main` are usage demos.
- `VelocityWindowCheck.computeRate` is private and has no caller.
- The JSON element conversion in the adapter (the Gson context and the
  element-type extraction) is the identity. Only the array/non-array decision
  and the order of insertion are modelled.
- Numbers:
  - Java `long` timestamps and `int` counters are unbounded integers, so
    overflow is not modelled.
  - `double` arithmetic in the geo and velocity rules is exact real arithmetic.
  - `BigDecimal` scale and the `setScale(3, HALF_EVEN)` rounding after adding
    a severity are not modelled. Every severity has at most two decimals, so
    the rounding does not change a sum of severities.
- The transaction's `equals`/`hashCode` come from `AbstractModel`, which is not
  part of this model. Window de-duplication (`LinkedHashSet`) uses Dafny value
  equality of transactions.
- Null fields are not modelled, except for the processed record's window and
  score. The source guards those two with null-defaulting getters, and they are
  modelled as `Option`.
- `MultipleIpCheck.Evaluate`: its contract states only the empty-window case.
  The full verdict is stated by `MultipleIpCheck.AllPublicVerdict`,
  `MultipleIpCheck.NonPublicWindowAddress` and
  `MultipleIpCheck.NonPublicCurrentAddress`, which between them cover every
  combination of public and non-public addresses.
- `WindowProcessor.Verdict`: its contract states only which rules cannot fail.
  Each rule's verdict is stated by that rule's own module.

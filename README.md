# Duplicate filter of the processing service

This project models the Kafka Streams topology built in the constructor of
`DuplicateFilterProcessor`. The topology reads string records from the input
topic `docs.article`. It re-keys each record by its message body, so the
original key is dropped. It counts the records per body in a `KTable<String, Long>`.
Every table update whose count equals 1 is written to the output topic
`filtered.docs.article`, with the body as key and the count as payload.

The model treats the topology as a deterministic state machine, all in one
module, `DuplicateFilter` (`duplicate_filter.dfy`):

- `Record(key, value)` is an input record and `OutputRecord(key, count)` an
  output record. The count table is a `map<string, Count>`, where `Count` is a
  natural number of at least 1. `State` pairs the table with everything
  written downstream so far.
- `GroupKey` is the `groupBy` key selector and `IsFirstCount` the `filter`
  predicate. `Step` pushes one record through `groupBy`, `count` and
  `filter`. `Run` folds `Step` over an input sequence, starting from an empty
  table.
- `ValuesOf`, `Occurrences` and `Distinct` are reference definitions that do
  not involve the state machine. They give the bodies in arrival order, the
  number of records carrying a body (a multiset count), and the set of bodies
  seen.
- `DuplicateFilterProcessor` is the `count()` operator's state store. Its field
  `counts` is updated in place by `Process`, which reads the entry, writes it
  back incremented and forwards `(body, 1)` when the new count is 1. A ghost
  history `consumed` ties the table to `Run`.
- `FilterTopic` feeds a whole input topic through a fresh processor and
  collects what is forwarded.

The model assumes that every `KTable` update reaches `toStream()`; see
"Left out".

The filter forwards the first occurrence of every body. It does not forward
only the bodies that occur exactly once overall: the filter `count == 1`
passes the update produced by a body's first record, and later duplicates
produce counts above 1 and are dropped.

## Model

| member | source | states |
|---|---|---|
| `DuplicateFilter.GroupKey` | processing-service/src/main/java/com/example/processingservice/streams/DuplicateFilterProcessor.java:51 | the `groupBy` key selector: the new key is the record's body and the old key is dropped; `GroupingIgnoresKey` and `RunIgnoresKeys` state that records differing only in their keys have the same effect |
| `DuplicateFilter.IsFirstCount` | processing-service/src/main/java/com/example/processingservice/streams/DuplicateFilterProcessor.java:55 | the `filter` predicate `count == 1`; `EmitsIffCountIsOne` states that a record is written downstream exactly when its updated count passes it |
| `DuplicateFilter.Step` | processing-service/src/main/java/com/example/processingservice/streams/DuplicateFilterProcessor.java:51-55 | one record through `groupBy`, `count` and `filter`; `StepBumpsOneCount` and `StepEmitsIffAbsent` state its effect on the table and on the output |
| `DuplicateFilter.Run` | processing-service/src/main/java/com/example/processingservice/streams/DuplicateFilterProcessor.java:47-55 | the whole topology over an input topic, from an empty table; `CountsAreOccurrences`, `EmitsIffFirstOccurrence` and `PermutationInvariant` state what it computes |
| `DuplicateFilter.StepBumpsOneCount` | processing-service/src/main/java/com/example/processingservice/streams/DuplicateFilterProcessor.java:51-52 | one record raises the count of its body by exactly 1, creating the entry if absent, and leaves every other body's count and presence unchanged |
| `DuplicateFilter.StepEmitsIffAbsent` | processing-service/src/main/java/com/example/processingservice/streams/DuplicateFilterProcessor.java:55 | one record writes `(body, 1)` downstream exactly when its body had no table entry before, and writes nothing otherwise |
| `DuplicateFilter.GroupingIgnoresKey` | processing-service/src/main/java/com/example/processingservice/streams/DuplicateFilterProcessor.java:51 | two records with the same body and any keys have the same effect on the state |
| `DuplicateFilter.RunIgnoresKeys` | processing-service/src/main/java/com/example/processingservice/streams/DuplicateFilterProcessor.java:51 | two inputs with the same bodies in the same order end in the same table and output, whatever their keys |
| `DuplicateFilter.EmptyInput` | processing-service/src/main/java/com/example/processingservice/streams/DuplicateFilterProcessor.java:47-55 | an empty input leaves the table empty and writes nothing |
| `DuplicateFilter.CountsAreOccurrences` | processing-service/src/main/java/com/example/processingservice/streams/DuplicateFilterProcessor.java:50-52 | after any input, the count of each body equals the number of input records carrying it, and a body has an entry iff it occurs in the input |
| `DuplicateFilter.TableKeysAreDistinctValues` | processing-service/src/main/java/com/example/processingservice/streams/DuplicateFilterProcessor.java:50-52 | the table's keys are exactly the distinct bodies of the input; bodies never seen are absent |
| `DuplicateFilter.CountsNeverDecrease` | processing-service/src/main/java/com/example/processingservice/streams/DuplicateFilterProcessor.java:51-52 | no body's count after a prefix of the input exceeds its count after the whole input |
| `DuplicateFilter.OneOutputPerEntry` | processing-service/src/main/java/com/example/processingservice/streams/DuplicateFilterProcessor.java:50-55 | the number of records written downstream equals the number of table entries |
| `DuplicateFilter.EmittedKeysAreDistinctValues` | processing-service/src/main/java/com/example/processingservice/streams/DuplicateFilterProcessor.java:50-55 | the keys written downstream are exactly the distinct bodies of the input, and there are as many output records as distinct bodies |
| `DuplicateFilter.EmitsIffFirstOccurrence` | processing-service/src/main/java/com/example/processingservice/streams/DuplicateFilterProcessor.java:51-55 | the record at position i adds `(body, 1)` to the output iff its body occurs at no earlier position; otherwise the output is unchanged |
| `DuplicateFilter.EmitsIffCountIsOne` | processing-service/src/main/java/com/example/processingservice/streams/DuplicateFilterProcessor.java:55 | the record at position i adds one output record iff its body's updated count is 1, and adds none iff that count is above 1 |
| `DuplicateFilter.EmittedOncePerValue` | processing-service/src/main/java/com/example/processingservice/streams/DuplicateFilterProcessor.java:50-55 | output keys are pairwise distinct, every output payload is 1, and the output keys are exactly the table's keys |
| `DuplicateFilter.OutputOfPrefixIsPrefix` | processing-service/src/main/java/com/example/processingservice/streams/DuplicateFilterProcessor.java:55 | the output after a prefix of the input is a prefix of the output after the whole input, so records are only appended |
| `DuplicateFilter.FirstOccurrenceEmittedAt` | processing-service/src/main/java/com/example/processingservice/streams/DuplicateFilterProcessor.java:50-55 | the first occurrence of a body at position i is written as `(body, 1)` at output position p, where p is the number of distinct bodies before i |
| `DuplicateFilter.EmittedInFirstOccurrenceOrder` | processing-service/src/main/java/com/example/processingservice/streams/DuplicateFilterProcessor.java:50-55 | if body u first occurs before body w, then u is written downstream before w |
| `DuplicateFilter.SameValuesSameResult` | processing-service/src/main/java/com/example/processingservice/streams/DuplicateFilterProcessor.java:51-55 | two inputs whose bodies form the same multiset end in the same table and write the same set of keys |
| `DuplicateFilter.PermutationInvariant` | processing-service/src/main/java/com/example/processingservice/streams/DuplicateFilterProcessor.java:51-55 | permuting the input records leaves the final table and the set of keys written unchanged |
| `DuplicateFilter.DuplicateFilterProcessor.constructor` | processing-service/src/main/java/com/example/processingservice/streams/DuplicateFilterProcessor.java:50-52 | a new state store is empty and has consumed nothing |
| `DuplicateFilter.DuplicateFilterProcessor.Process` | processing-service/src/main/java/com/example/processingservice/streams/DuplicateFilterProcessor.java:50-55 | the body's entry is incremented (from 0 when absent) and nothing else in the table changes; `(body, 1)` is forwarded iff the body was absent, that is iff the body has now occurred exactly once; the table stays equal to `Run` of the consumed records |
| `DuplicateFilter.FilterTopic` | processing-service/src/main/java/com/example/processingservice/streams/DuplicateFilterProcessor.java:47-55 | streaming a whole input through one processor yields `Run`'s output and table; the table maps each distinct body to its occurrence count, and the output keys are the distinct bodies |
| `DuplicateFilter.FirstRecord` | processing-service/src/main/java/com/example/processingservice/streams/DuplicateFilterProcessor.java:50-55 | a single record, whatever its key, creates its body's entry at 1 and writes `(body, 1)` downstream |
| `DuplicateFilter.ScenarioMixed` | processing-service/src/main/java/com/example/processingservice/streams/DuplicateFilterProcessor.java:50-55 | bodies a, b, a, c, b, a under different keys write `(a,1)`, `(b,1)`, `(c,1)` in that order |
| `DuplicateFilter.ScenarioRepeated` | processing-service/src/main/java/com/example/processingservice/streams/DuplicateFilterProcessor.java:50-55 | bodies x, x, x write `(x,1)` once and leave the count of x at 3 |
| `DuplicateFilter.ScenarioSingle` | processing-service/src/main/java/com/example/processingservice/streams/DuplicateFilterProcessor.java:50-55 | the single record `(k, z)` leaves the table `{z: 1}` and writes `(z, 1)` |

## Left out

- Stream configuration is not modelled: application id, bootstrap address, offset reset, serdes and the topic-name constants (DuplicateFilterProcessor.java:23-24, 36-41). They are transport settings with no logic.
- The `KafkaStreams` lifecycle is not modelled: construction, `start()` and the shutdown hook that calls `close` (DuplicateFilterProcessor.java:58-62). It is runtime threading inside the library.
- `listenToFilteredTopic` (DuplicateFilterProcessor.java:27-30) has an empty body, so it has no behaviour to model.
- Record-cache coalescing of `KTable` updates and commit intervals are not modelled. The model forwards every table update to `toStream()`. With caching, Kafka may merge several updates of one key before forwarding them, and then the count-1 update of a body can be lost.
- Null keys, null values and tombstones are not modelled. Strings here cannot be null, and Kafka drops records whose grouping key or value is null; that is library behaviour not visible in this code.
- Partitioning, the repartition topic created by `groupBy`, and durability of the state store are not modelled. They concern distribution and concurrency, and the model runs one sequential worker over one table.
- Deserialization failures are not modelled. The code installs no exception handler, and whatever the library then does is outside this code.
- Count: the table holds unbounded naturals. Java's `Long` would wrap only after 2^63 records with one body, which no deployment reaches.
- `Article.java` is a MongoDB data holder with fields only and is not used by the filter. `GatewayServiceApplication.java` only boots Spring and logs one line. Neither is part of this model.

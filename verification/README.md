# Distributed event log: a verified model

This project models the storage engine of one partition of the event log and the layers that sit
directly on it, and proves what they promise with the Dafny 4.11 verifier:

    dafny verify dfyconfig.toml

## How the model is built

- **Files are byte sequences.** A `Directory` maps a base offset to a `.log`/`.index` pair
  (`SegmentFile.dfy`). `Segment` and `Log` are classes with the source's own fields; their methods
  work on those bytes, and on the counters cached beside them, exactly as the Go methods do.
- **Views say what the bytes mean.** A `LogView` is the sequence of segments with the messages each
  one still holds (`Views.dfy`). `Segment.Rep` and `Log.Rep` tie files and counters to a view, and
  every method is proved against a function on views: after a call the files are byte for byte those
  of the new view. `Contents` turns a view into the abstract log, a map from offset to message.
- **Runs and protocols are stated on views**, for every operation sequence: whole runs of a log
  (`Runs.dfy`), compaction (`Compaction.dfy`), batch/single and fast/simple equivalences
  (`Equivalences.dfy`), the Raft frame (`Frames.dfy`), replicas (`Replicas.dfy`), routing and
  publishing (`Publishing.dfy`), the consumer-group store (`ConsumerGroups.dfy`) and the consumer loop
  (`ConsumerLoop.dfy`). `Runs.Execute` and `Runs.ExecuteThenRead` carry the run theorems back to files.

Conventions. Every public `Log` operation holds the log's mutex, so it is one step. Snappy is a pair of
functions of which only `decode(encode(p)) == Some(p)` is used; the key hash is an arbitrary function;
clocks are parameters. Integer widths are explicit: narrowing conversions are `BigEndian` of a fixed
width, timestamps are `int64`, and the retention cutoff wraps as the Go product does. Offsets and file
sizes are natural numbers; the methods on files ask for a result that stays below 2^64 and 2^63
(`Fits`), the theorems on views ask for nothing. An error is `Err` without its text. The compression
flag is the same when a record is written and when it is read.

## Findings

- `compactSegment` closes the segment (internal/log/log.go:391) before it reads the index through the
  closed handle (internal/log/log.go:425). As written, Compact succeeds exactly when no sealed segment
  holds a message (`CompactAsWritten`), which, as long as no Compact has gone through, means that the
  log has a single segment (`AsWrittenNeedsOneSegment`). Otherwise it fails on the first sealed segment
  that holds a message and leaves it closed, so that its offsets cannot be read until the log is
  reopened (`CompactThenReopen`); one record that fills a segment is enough (`FailCompact`).
  `Log.Compact` models the intended order, with the index as it stood before the close.
- A committed group offset that has been removed stops the group for good (`GapStopsGroup`). One
  record and one retention pass get there (`RetentionReachesGap`), and so do two records of one key and
  one compaction (`CompactionReachesGap`, in the intended order). In every reachable state the committed
  offset can still move forward exactly when it is not stuck; with nothing in hand or in flight that
  means exactly when it is not a gap (`AdvancesIff`).
- Two overlapping commits of one key can leave cache and database different with nothing in flight
  (`OverlapIsReachable`). Whatever the order of publishing, a key ends in agreement exactly when all its
  commits in flight carry the database value (`DrainAgreesIff`); with two different offsets in flight
  some order always ends in disagreement (`OverlapCanDisagree`). Without overlap idle keys always agree
  (`CacheAgrees`).
- A topic name of 65536 bytes or more is truncated by the frame's length field (internal/raft/fsm.go:33),
  so what is published to it is never stored under it (`LongTopicStoresNothing`). The frame is read as
  one for a prefix of the name, with the next four bytes of the name as partition (`LongTopicTarget`);
  the publish is rejected, or is answered with an offset of that other topic, which takes a name with
  NUL bytes (`LongTopicAnswer`, `LongTopicExample`). The model starts at the encoder: Publish first
  creates a directory of that name (internal/broker/broker.go:711), and file systems refuse most names
  of that length and all with a NUL byte.
- The README of the source describes a frame `[type][count][payload]`; the code writes type, topic
  length, topic and partition first. The model follows the code.

## Model

| member | source | states |
|---|---|---|
| Format.MessageAt | internal/log/segment.go:214-241 | message i occupies exactly the bytes between its index position and the next one |
| Format.EntryAt | internal/log/segment.go:516-523 | decoding index entry i gives the offset of message i and the place where its bytes begin |
| Format.ReadBack | internal/log/segment.go:267-289 | the two reads at an indexed position return the header and the packed payload of that message |
| SegmentFile.Segment.NewSegment | internal/log/segment.go:56-180 | refuses exactly a ragged index and a pair with one empty file, for arbitrary bytes, and derives size, entry count and next offset from the files |
| SegmentFile.Segment.Append | internal/log/segment.go:189-248 | both files become those of the segment extended by one record, with the header, payload and index entry spelled out in bytes and the bytes saved; refusals change nothing |
| SegmentFile.Segment.AppendBatch | internal/log/segment.go:568-668 | both files become those of the segment extended by all records, with consecutive offsets and the total bytes saved; refused whole or written whole |
| SegmentFile.Segment.FillBuffers | internal/log/segment.go:624-653 | the two buffers are filled exactly with the message images and index entries, in order |
| SegmentFile.Segment.FindMessageBounds | internal/log/segment.go:329-385 | equals a linear scan on every strictly increasing index, gaps included, and says when the direct path answered |
| SegmentFile.Segment.FindEndPosition | internal/log/segment.go:394-425 | equals a linear scan of the positions; an error for any position where no message begins |
| SegmentFile.Segment.Read | internal/log/segment.go:251-325 | returns exactly the message held at the offset, an error where none is held, and an error on closed handles; the header's own offset is checked |
| SegmentFile.Segment.NewestTimestamp | internal/log/segment.go:428-449 | the timestamp of the last message, or an error when there is none |
| SegmentFile.Segment.Delete | internal/log/segment.go:495-513 | removes this segment's files and no others |
| Equivalences.DirectHitIff | internal/log/segment.go:335-351 | the direct index path finds an offset exactly when nothing up to that offset was compacted away |
| Equivalences.EndPositionAgrees | internal/log/segment.go:387-425 | findEndPosition gives, for the start findMessageBounds returns, the end it returns |
| Equivalences.BatchIsEach | internal/log/segment.go:567-668 | a segment batch leaves the same segment, hence the same bytes, counters and bytes saved, as single appends |
| Equivalences.SavedIsNotWritten | internal/log/segment.go:205-248 | bytes written and bytes saved add up to the larger of the plain and the packed size of every record |
| Equivalences.LogBatchIsEach | internal/log/log.go:150-212 | a log batch gives the same messages, end offset and offsets as single appends, however those roll |
| CommitLog.Log.NewLog | internal/log/log.go:40-121 | accepts exactly directories of valid pairs and rebuilds, from the files of any log, that log's base offsets, next offsets, sizes and counts |
| CommitLog.Log.LinkedRep | internal/log/log.go:116-118 | taking each next offset from the neighbouring file restores the ends that compaction removed from the index |
| CommitLog.Log.Close | internal/log/log.go:290-301 | closes every segment and leaves files and counters alone |
| CommitLog.Log.RepDirHolds | internal/log/log.go:86-120 | the files alone carry everything that reopening needs |
| CommitLog.Log.SetCompressed | internal/log/log.go:124-132 | sets the flag on the log and every segment and leaves files and counters alone |
| CommitLog.Log.Append | internal/log/log.go:186-212 | the record gets the end offset; the files become those of the extended log, rolled when the size limit is reached |
| CommitLog.Log.AppendBatch | internal/log/log.go:151-184 | consecutive offsets from the end offset, no roll inside the batch |
| CommitLog.Log.LatestOffset | internal/log/log.go:215-231 | end offset minus one when some segment owns a nonempty range, else zero |
| CommitLog.Log.SegmentForOffset | internal/log/log.go:303-318 | the one segment that answers for an offset, an error exactly before the log's start |
| CommitLog.Log.Read | internal/log/log.go:234-244 | returns exactly the message the whole log holds at the offset, else an error; an error in a closed segment |
| CommitLog.Log.ReadBatch | internal/log/log.go:247-287 | terminates with the longest run of consecutive messages, cut at the count; fails only before the log or at a gap |
| CommitLog.BatchIsLongest | internal/log/log.go:247-287 | at most the count, consecutive, and fewer only where the next offset is missing; an error exactly before the log or at a gap; nothing for a count that is not positive |
| Views.RunUnique | internal/log/log.go:258-284 | a run of consecutive messages that cannot be extended is the run that ReadBatch must return |
| CommitLog.Log.EnforceRetention | internal/log/log.go:559-609 | drops exactly the prefix up to the retention point, files included, and keeps every other segment object |
| CommitLog.Log.SumSizes | internal/log/log.go:571-574 | the running total is the number of bytes in the remaining log files |
| Views.RetentionPointIsLeast | internal/log/log.go:581-606 | the fewest segments to drop: every dropped one was expired in its turn and the first kept one is not, or is the last |
| Views.RetentionPointUnique | internal/log/log.go:581-606 | no other prefix length has that property |
| Views.RetainedRules | internal/log/log.go:571-606 | in bytes and timestamps, for every retention time with the int64 product of Go: each dropped segment broke a rule as the first one, and the first kept one breaks none or is the last |
| Views.RetainedByTime | internal/log/log.go:576-597 | under the time rule every dropped segment is older than the retention time and the first kept one is not, is empty or is the last |
| Views.RetainedByBytes | internal/log/log.go:583-606 | under the byte rule what remains is at most the limit or one segment, and before each drop it was above the limit |
| Views.TotalSizeIsAllBytes | internal/log/log.go:571-574 | the sum of the segment sizes is the length of all messages' log bytes |
| Runs.RetainStep | internal/log/log.go:599-606 | retention removes exactly the offsets below the new start; every other offset reads as before and the end offset is unchanged |
| CommitLog.Log.CollectLatestOffsets | internal/log/log.go:347-372 | the backward scan gives every key its last offset, later segments winning |
| CommitLog.Log.SegmentIndex | internal/log/log.go:547-557 | finds the segment with a base offset, or nothing |
| Compaction.RewritePair | internal/log/log.go:424-503 | the new files are byte for byte those of the surviving messages, in order |
| CommitLog.Log.CompactSegment | internal/log/log.go:374-545 | one sealed segment is replaced by its survivors with its old end; no other file changes |
| CommitLog.Log.Compact | internal/log/log.go:321-345 | the files become those of the compacted log |
| CommitLog.Log.CompactSegmentAsWritten | internal/log/log.go:385-429 | in the order written, fails exactly when the segment holds a message, and leaves it closed |
| CommitLog.Log.CompactAsWritten | internal/log/log.go:321-345 | succeeds exactly when no sealed segment holds a message; a failure leaves the first one that does closed and the files intact |
| Compaction.LatestIsHighest | internal/log/log.go:354-369 | the collected map has exactly the keys that occur, each with its highest offset |
| Compaction.SurvivesIffHighest | internal/log/log.go:476-480 | a sealed message survives exactly when no sealed message has its key at a higher offset |
| Compaction.CompactedExactly | internal/log/log.go:321-545 | exactly the active messages and the highest sealed message of every key remain, unchanged and in order |
| Compaction.CompactedKeepsLast | internal/log/log.go:321-545 | the last message of every key over the whole log is unchanged |
| Compaction.CompactedTwice | internal/log/log.go:321-545 | a second Compact changes nothing |
| Compaction.CompactedWf | internal/log/log.go:529-543 | base offsets, ends and tiling survive compaction, and so does the end offset |
| Views.AppendedWf | internal/log/log.go:174-211 | appending and rolling keep the segments tiling the offset space and add exactly the new records at the end |
| Views.AppendedRolls | internal/log/log.go:174-206 | a write opens a new segment exactly when the bytes of the segment it wrote to reach the size limit |
| Runs.StepRefines | internal/log/log.go:143-609 | every operation is a step of the abstract offset-to-message map |
| Runs.RunRepresents | internal/log/log.go:143-609 | after any run, what is present at an offset is exactly the record appended there, and the end offset counts all records |
| Runs.RunOnlyLoses | internal/log/log.go:116-231 | the end offset never decreases, no offset is assigned twice, and only Compact and retention remove |
| Runs.SegmentSizes | internal/log/log.go:174-206 | in every run the active segment is below the size limit, and as long as nothing is compacted every sealed one has reached it with its last append or batch and not before |
| Runs.ReopenLog | internal/log/log.go:86-120 | closing and reopening, also when some segments are closed already, gives a usable log with the same files, counters and messages |
| Runs.Execute | internal/log/log.go:143-609 | any run on files ends with files and counters of the run's view, and every operation returns what the end offset before it determines |
| Runs.ExecuteFresh | internal/log/log.go:143-609 | after any run from an empty directory the last file is below the size limit, without Compact every other file has reached it, and each append returned the places of its records in the history |
| Runs.ExecuteThenRead | internal/log/log.go:143-318 | after any run from an empty directory, each append returned the places of its records in the history, and Read returns exactly the record appended at the offset while it is present, else an error |
| Runs.ExecuteThenReadBatch | internal/log/log.go:143-318 | after any such run, ReadBatch returns the longest run of records from the offset up to the count, each exactly as appended, and fails exactly at an assigned offset whose record is gone |
| Runs.HistoryAt | internal/log/log.go:151-212 | the records of an append sit in the whole history from the end offset that it found |
| Runs.AsWrittenNeedsOneSegment | internal/log/log.go:321-345 | in a run without a successful Compact, no sealed segment is empty, so Compact as written succeeds exactly on a log with one segment |
| Runs.FailCompact | internal/log/log.go:385-429 | a log with one record that fills its segment, on which Compact as written fails and leaves segment 0 closed |
| Runs.CompactThenReopen | internal/log/log.go:321-429 | after a failed Compact the stuck segment cannot be read, and after reopening every offset reads as before |
| Frames.EncodeCommand | internal/raft/fsm.go:27-50 | fills its buffer exactly with the single frame, spelled out field by field |
| Frames.EncodeBatchCommand | internal/raft/fsm.go:53-85 | fills its buffer exactly with the batch frame, spelled out field by field |
| Frames.DecodeCommand | internal/raft/fsm.go:105-192 | on every byte string all slices are in bounds and the result is the reference decoding |
| Frames.RoundTripIff | internal/raft/fsm.go:27-192 | a command is recovered from its frame exactly when topic, partition, keys, values and count fit their fields, and then the whole frame is consumed |
| Frames.DecodesIff | internal/raft/fsm.go:27-192 | data decode to a command of n bytes exactly when their first n bytes are an encoding of it; an empty topic name stands for the default one |
| Frames.DecodeBounds | internal/raft/fsm.go:105-192 | whatever decodes is within the frame's own limits |
| Frames.DecodeExtends | internal/raft/fsm.go:105-192 | bytes after a complete frame change nothing |
| Frames.PrefixRejected | internal/raft/fsm.go:105-192 | every strict prefix of what a frame consumes is rejected |
| Replicas.ApplyToLog | internal/raft/fsm.go:131-203 | a decoded command adds exactly its records to the partition's files, each with the time of application, and is answered with their offsets; a malformed one changes nothing |
| Replicas.ApplyEffect | internal/raft/fsm.go:105-203 | a command changes at most the partition it names, and none when it is rejected |
| Replicas.ApplyGains | internal/raft/fsm.go:131-203 | the named partition gains exactly the command's records, at the next offsets, with the time of application as timestamp |
| Replicas.ApplyCreates | internal/raft/fsm.go:105-131 | a command creates the topic it names even when its body is malformed, but not for a partition out of range |
| Replicas.LocalEffect | internal/broker/broker.go:632-673 | a replica's own retention and compaction act on the existing partition they name and on nothing else |
| Replicas.ReplicaConsistent | internal/raft/fsm.go:105-203 | with any clock, settings, retention, compaction and topic creation, a replica holds what the commands committed and answers what they determine |
| Replicas.ReplicaTimes | internal/raft/fsm.go:131-203 | every message a replica still holds carries the replica's own clock when it applied the command that committed it |
| Replicas.ReplicasAgree | internal/broker/broker.go:632-673 | replicas with the same commands return the same offsets, have equal ends, and agree wherever both can read, although each runs retention and compaction on its own |
| Publishing.Router.SelectPartition | internal/broker/broker.go:1594-1625 | the routed partition and the new turn counters |
| Publishing.Rotation | internal/broker/broker.go:1618-1624 | the turn counter counts the topic's keyless publishes and deals them out in rotation |
| Publishing.RoundRobinIsFair | internal/broker/broker.go:1594-1625 | over any run the keyless publishes of a topic to any two partitions differ by at most one |
| Publishing.RouteRun | internal/broker/broker.go:1594-1625 | a router's answers over a run of publishes: an explicit partition is taken or refused as it is, and those of one key without one are the same partition in all runs |
| Publishing.PublishTargetIs | internal/broker/broker.go:698-709 | only the leader publishes, and only an explicit partition out of range is refused |
| Publishing.PublishThenRead | internal/broker/broker.go:688-733 | a publish fails exactly for a partition that does not exist; otherwise it goes to the partition it names, if any, and its offset yields its key and value there until removed |
| Publishing.PublishBatchThenRead | internal/broker/broker.go:737-801 | a batch succeeds exactly when its offsets fit int64 and then returns consecutive readable offsets |
| Publishing.LongTopicStoresNothing | internal/raft/fsm.go:33-34 | a topic name longer than the length field never receives what is published to it |
| Frames.LongTopicTarget | internal/raft/fsm.go:27-129 | the frame of such a topic is read as one for a prefix of the name, with the next four bytes of the name as partition |
| Publishing.LongTopicAnswer | internal/raft/fsm.go:105-203 | such a publish is rejected, or answered with the end offset of the partition that the frame is read as; always rejected for a NUL-free name |
| Frames.LongTopicExample | internal/raft/fsm.go:27-192 | a name of 65536 zero bytes: the frame decodes as an empty record for partition 0 of the default topic |
| ConsumerGroups.KeyRoundTripIff | internal/broker/consumer_group.go:144-174 | Snapshot's parse inverts the key encoding exactly for NUL-free group and topic, zero partition bytes included |
| ConsumerGroups.ParseIsExact | internal/broker/consumer_group.go:144-174 | a key that parses is the key of what it parses to |
| ConsumerGroups.NoAlias | internal/broker/consumer_group.go:186-198 | nothing but the triple itself has the key of a NUL-free triple |
| ConsumerGroups.Store.Load | internal/broker/consumer_group.go:63-84 | succeeds exactly when all values have eight bytes and then rebuilds the cache |
| ConsumerGroups.Store.CommitOffset | internal/broker/consumer_group.go:87-121 | updates database and cache at the triple's key, and neither when group or topic has a NUL byte |
| ConsumerGroups.Replay | internal/broker/consumer_group.go:63-121 | after any list of commits the cache is theirs, and load would rebuild it from the database |
| ConsumerGroups.ReplayThenFetch | internal/broker/consumer_group.go:63-135 | after any list of commits, restart or not, a lookup gives the last accepted offset of the triple, or zero |
| ConsumerGroups.Store.Snapshot | internal/broker/consumer_group.go:138-178 | lists every parsable key of any cache once, with its offset |
| ConsumerGroups.FetchIsLastCommit | internal/broker/consumer_group.go:124-135 | after any history a lookup finds the last accepted commit of exactly the triple asked for, and nothing for a name with a NUL byte |
| ConsumerGroups.SnapshotIsHistory | internal/broker/consumer_group.go:138-178 | after any history the listing shows each committed triple once with its last offset |
| ConsumerGroups.CacheIsPersistedFirst | internal/broker/consumer_group.go:102-118 | in every interleaving every cached value was persisted first |
| ConsumerGroups.CacheAgrees | internal/broker/consumer_group.go:63-121 | without overlapping commits of a key, idle keys agree in cache and database and load rebuilds the cache |
| ConsumerGroups.DrainAgreesIff | internal/broker/consumer_group.go:102-118 | from every reachable state, all orders of publishing a key's commits end in agreement exactly when each carries the database value (or, with none in flight, cache and database agree already) |
| ConsumerGroups.OverlapCanDisagree | internal/broker/consumer_group.go:102-118 | with two different offsets of one key in flight some order of publishing ends idle and in disagreement |
| ConsumerGroups.OverlapIsReachable | internal/broker/consumer_group.go:102-118 | two commits reach such a state, and published in reverse they leave the cache behind the database |
| ConsumerLoop.ConsumeDelivers | internal/broker/broker.go:937-964 | a consumed message carries the requested offset and the record appended there |
| ConsumerLoop.RunIsSafe | cmd/cli/main.go:353-424 | every offset anywhere in the protocol has everything below it delivered |
| ConsumerLoop.AtLeastOnce | cmd/cli/main.go:353-424 | in any interleaving, with failures at any step, every offset below the committed one was delivered with the record appended at it |
| ConsumerLoop.LoneConsumer | cmd/cli/main.go:353-424 | without failures one consumer delivers each of n consecutive messages and no other, and commits the offset after the last |
| ConsumerLoop.ReadTurn | cmd/cli/main.go:354-388 | one fetch and consume delivers the message at the committed offset, or leaves the consumer to fetch again |
| ConsumerLoop.GapStopsGroup | cmd/cli/main.go:371-388 | once the committed offset has been removed from the log and no other is in hand, nothing is delivered and the offset never moves again |
| ConsumerLoop.RetentionReachesGap | internal/log/log.go:581-606 | one record and one retention pass lead from the initial state to such a gap |
| ConsumerLoop.CompactionReachesGap | internal/log/log.go:321-345 | two records of one key and one compaction in the intended order do, too |
| ConsumerLoop.AdvancesIff | cmd/cli/main.go:353-424 | in every reachable state some continuation moves the committed offset forward exactly when it is not stuck; with nothing in hand, exactly when it is not a gap |

## Left out

- Raft consensus, transport, BoltDB, snapshots and replay after a broker restart: the committed command sequence and an atomic put are taken as given.
- Partial writes and crashes between the log write and the index write: a write succeeds, or fails with no effect.
- Failure to create the next segment after a successful append (internal/log/log.go:203-206): creating a file is taken to succeed.
- Snappy and FNV internals, and the compression observer callback: a lawful codec and an arbitrary hash stand for them.
- Changing the compression flag on a log that already holds records: reading them back then depends on the codec's internals.
- File names, directory listing order, temporary files and an index file missing beside its log: the directory maps base offsets to complete pairs.
- HTTP, gRPC, TLS, metrics, tickers, join retries and shutdown: plumbing with no hard property.
- CommitLog.Log.Compact: models the intended order of compactSegment; CompactAsWritten models the order in the source.
- CommitLog.Log.CompactSegment: the index is read as it stood before the handles were closed; CompactSegmentAsWritten models the order in the source.
- CommitLog.Log.CollectLatestOffsets: keeps latest offsets as unsigned numbers, because int64 conversion is one-to-one on uint64.
- Replicas.ApplyEffect: topics are keys of a map, so two names that clean to one directory, such as `a` and `./a` (internal/broker/broker.go:522-530), are two logs here, while in the source two Log objects write one pair of files.
- Publishing.PublishThenRead: leadership and the Raft apply are taken to succeed; topics of 65536 bytes or more are the subject of LongTopicStoresNothing.

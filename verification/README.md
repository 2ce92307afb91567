# A crash-safe store for many Raft nodes, verified

The engine keeps the persistent state of many Raft nodes in one append-only
stream of records, cut into numbered segment files. A node's state is the fold of
its own records; a checkpoint record supersedes what came before it. Two small
files, replaced atomically, say which nodes exist (the registry) and where each
node's last checkpoint is (the index). Whole segments are deleted once no active
node needs them. This project models that engine and proves what it promises.

## How the proof is built

*Bytes.* `Words` and `Crc32c` define the checksum one bit at a time and prove the
slice-by-16 tables and loops equal to it, and that no corruption inside four bytes
goes unnoticed; `Bursts` has the same for 32 consecutive bits at any offset.
`Division` proves the checksum to be CRC-32C: the remainder of the message by the
generator of section 12.1 of RFC 3720. `Records`, `Wire`, `Codec` give the record
format twice, as an encoder and as a parser, and prove them inverse in both
directions; `Encoder` and `Decoder` are the objects that compute them, and `Format`
spells the format out in plain numbers. `Frames` holds the two frame readers,
`Recovery` the cut of a torn tail.

*Replay.* `NodeState` applies records to a node's state. `Replay` says what a pass
over the segments computes, `Replayer` has the loops that compute it, and
`ReplayProofs` shows that every way of replaying a node gives one simple meaning,
`Naive`: the node's own records, from its last checkpoint, folded. `Folds` says what
a fold amounts to without folding: each field, entry and payload is found by a
search from the end of the list.

*Crashes.* `Disk` describes a directory as a crash can leave it: files with a durable
length, registry, index. Beside it stands the history, the stream of records
appended and not lost. `DiskInv` relates the two. `Steps` lists the durable
sub-steps; each, taken where allowed, keeps the invariant and everything durable.
`Protocol` gives every operation as its list of sub-steps and proves that each step
is allowed where it is taken. `Runs` puts engines one after another on one
directory, with a crash possible between any two sub-steps and inside a write:
either the process stops, or power is lost, any part of the last file beyond its
durable length goes with it, and deleted files may be back. `Consequences`,
`Effects`, `Collection`, `Durability`, `Lifecycle`, `Rotation`, `ReadOnly` and
`Limits` state what follows, operation by operation, and where the promises end.

*Objects.* `Engine` and `Storage` are the program's own objects: directory, segment
writer, node registry, checkpoint index, storage engine, read-only reader. Their
methods are proved to take exactly the sub-steps of their plan, in order, on any
directory; `Storage.StaysInStep` ties them to the invariant.

## What to know when reading it

- An operation that succeeds acknowledges durability for its own engine instance
  only: `create_node`, `save_snapshot` and `sync` return once everything that
  instance wrote is durable. The documentation of `sync` (`src/storage.rs:281-299`)
  promises durability of pending appends; records that an earlier instance left
  unsynced are recovered and loaded, but a reopened engine starts with zero counters
  and its `sync` skips the fsync. `Durability.SyncMissesEarlierInstance` is the
  run, `Consequences.SyncReaches` the exact condition.
- `validate` accepts a checkpoint at index 0 with a non-zero term, and `into_state`
  then always fails. `Limits.SavedSnapshotLoads` says for every saved checkpoint
  whether it loads, `Limits.CheckpointThatNeverLoads` is a run in which
  `save_snapshot` succeeds and neither `load` nor `load_all` does any more.
- A reader beside a writer may fail although the records it saw fold without error,
  because it starts at an older checkpoint than the last one it sees.
  `Limits.ReaderMissesCheckpoint` is such a run; `Readers.ReaderLoads` and
  `Readers.ReaderLoadsAll` say exactly when the result, state or error, is that of the
  records it saw, and `Readers.ReaderLoadsExactly` and `Readers.ReaderLoadsAllExactly`
  that it always is while no checkpoint of the node, or of any, is appended.
- A segment longer than the threshold holds exactly one record, for every threshold of
  at least a header and for every store that holds a record; the new, empty store under
  a smaller threshold is the one exception (`Rotation.OneRecordExactly`,
  `Rotation.RotationBound`).
- All failures are one outcome. Preconditions that logs stay inside the 64-bit index
  space are `noraft`'s own.

## Model

| member | source | states |
|---|---|---|
| `Checksum.StepsXor` | src/crc32c.rs:14-27 | The bit-at-a-time register step is linear over GF(2), for any number of steps and any two states. |
| `Checksum.StepsInjective` | src/crc32c.rs:14-27 | The step is a bijection: equal states had equal predecessors, any number of steps back. |
| `Checksum.EntryMeaning` | src/crc32c.rs:28-41 | Entry `i` of table `k` is the effect of byte `i` and then `k` zero bytes on a clear register, although it is built from the table before it. |
| `Checksum.MakeTable` | src/crc32c.rs:10-41 | The nested loops fill all sixteen tables with those entries. |
| `Checksum.FeedSlice` | src/crc32c.rs:66-102 | Sixteen bytes fed one after another are the sixteen table lookups of one slice, from every state. |
| `Checksum.Crc32c.Update` | src/crc32c.rs:62-112 | The two loops leave the state that the bit-at-a-time CRC-32C gives, for every starting state and every input. |
| `Checksum.FeedConcat` | src/crc32c.rs:62-117 | Feeding in pieces is feeding at once, wherever the cut. |
| `Checksum.Crc32cOf` | src/crc32c.rs:121-125 | The one-shot checksum is the bitwise one, which `Division.CrcIsRemainder` proves to be CRC-32C. |
| `Division.PolynomialIsGenerator` | src/crc32c.rs:6 | The constant of the shift register is, bit for bit, the reflected generator that RFC 3720 lists by its exponents. |
| `Division.CrcIsRemainder` | src/crc32c.rs:121-125 | The checksum of every byte string, lowest bit first, is the complement of the remainder of a long division over GF(2), of the message times x to the 32nd with its leading 32 coefficients complemented, by that generator. |
| `Checksum.BurstDetected` | src/crc32c.rs:106-116 | Two byte strings of equal length that differ, and only inside four consecutive bytes, never have the same checksum. |
| `Bursts.FeedIsFeedBits` | src/crc32c.rs:106-116 | Feeding bytes is feeding their bits one by one, lowest bit of each byte first. |
| `Bursts.BitWindowInjective` | src/crc32c.rs:106-116 | From any register, different strings of the same length of at most 32 bits lead to different registers. |
| `Bursts.BitBurstDetected` | src/crc32c.rs:106-116 | Two byte strings of equal length that differ, and only within 32 consecutive bits, at any bit offset and so across up to five bytes, never have the same checksum. |
| `Records.ValidateAppend` | src/storage.rs:579-597 | The two passes accept exactly the appends whose payload keys are the indexes of the command entries. |
| `Records.ValidateCheckpoint` | src/storage.rs:639-647 | Accepts exactly valid suffixes that start at the snapshot's last included position. |
| `Wire.NodeRecordBack` | src/codec.rs:131-143 | Parsing what was encoded gives it back, through every nested form, with nothing left over. |
| `Wire.NodeRecordExact` | src/codec.rs:131-143 | Conversely, whatever bytes parse are byte for byte the encoding of what they parse to. |
| `Codec.DecodeBody` | src/codec.rs:131-149 | Round trip: every record the encoder accepts decodes to itself with the same node ID and no trailing bytes; sets and maps included. |
| `Codec.ReencodeBody` | src/codec.rs:188-204 | An accepted body of at most 1 GiB is encodable again, to the same length and the same record, and to identical bytes iff its node-ID sets and payload indexes were in ascending order. |
| `Encoding.Encoder.PutBytes` | src/codec.rs:437-451 | Appends a length and the bytes, or fails exactly when the body limit would be passed. |
| `Encoding.EncodeNodeIdSet` | src/codec.rs:312-321 | Writes the count and the IDs in ascending order, or fails exactly above the item limit or the body limit. |
| `Encoding.EncodeRecord` | src/codec.rs:150-170 | Writes the listed form of a record; succeeds exactly for valid records within all limits. |
| `Encoding.EncodeRecordFrame` | src/codec.rs:19-36 | Gives a frame iff the record is encodable, and then length, checksum and body. |
| `Decoding.DecodeNodeIdSet` | src/codec.rs:323-335 | Reads the counted IDs and fails on a duplicate, as the parser specification says. |
| `Decoding.DecodePayloads` | src/codec.rs:188-204 | Reads the payload pairs into a map and fails exactly on a repeated index. |
| `Decoding.DecodeNodeRecord` | src/codec.rs:131-143 | The decoder object computes the parser specification and rejects trailing bytes. |
| `Frames.ReadRecordBody` | src/codec.rs:38-77 | Outcome, body and next offset agree with the frame at the cursor, even if the file grows between its three reads. |
| `Frames.ScanRecordFrame` | src/codec.rs:79-124 | The buffer-at-a-time reader has the same outcome and next offset on every byte string and offset. |
| `Frames.FrameReadsBack` | src/codec.rs:19-77 | A stored frame reads back as its body whatever is before and after it. |
| `Frames.FrameExactly` | src/codec.rs:38-77 | At every offset of every byte string: reading gives a body iff the whole frame of that body is there and the body is at most 1 GiB, and gives nothing, without an error, iff a frame is unfinished. |
| `Frames.StoredRecordDecodes` | src/codec.rs:19-77 | Whatever frame the encoder gives, reading it back from a file and decoding its body yields the same node ID and record. |
| `Frames.CutFrameEnds` | src/codec.rs:42-67 | A frame cut anywhere reads as the end of the file, never as corruption. |
| `Frames.CorruptionNoticed` | src/codec.rs:69-75 | Any corruption of a stored body inside four consecutive bytes is rejected. |
| `Frames.BitCorruptionNoticed` | src/codec.rs:69-75 | So is any corruption within 32 consecutive bits, from any bit on. |
| `Frames.ScanRun` | src/storage.rs:1444-1477 | A scan of a run of frames with a torn frame after it finds exactly the run, where it ends, and the tear. |
| `Frames.CutRun` | src/storage.rs:1455-1474 | A run of frames cut anywhere is its whole frames and a part of one more. |
| `Recovery.ScanSegment` | src/storage.rs:1444-1477 | The scan loop accepts and truncates exactly as the recovery specification says, and changes nothing otherwise. |
| `Recovery.TornTail` | src/storage.rs:1455-1474 | A file of any frames cut anywhere recovers to exactly the frames wholly before the cut, ending at their boundary. |
| `Recovery.WholeFramesIs` | src/storage.rs:1455-1474 | "Wholly before the cut": `k` frames count as kept iff they end by the cut. |
| `Recovery.RecoveryIsSafe` | src/storage.rs:1444-1477 | On any bytes: recovery keeps a prefix with the same complete frames, ends clean, and has nothing to do the second time. |
| `Recovery.RecoversExactly` | src/storage.rs:1444-1477 | For every file: it is accepted and a given part of it kept iff the kept part is the magic and a run of whole frames and what follows it is nothing or, in the active file, an unfinished frame; or it is the active file without a whole header. Reading accepts exactly the same files. |
| `Names.NamesAreUnique` | src/segment.rs:156-181 | A file name parses as a segment ID iff it is that ID's printed name, for every string and every ID. |
| `Names.SomeNames` | src/segment.rs:179-181 | The names of two segments, character by character. |
| `Formats.LittleEndian` | docs/segment-format.md:10-11 | Every number is the sum of its bytes with the first the least significant. |
| `Formats.FrameLayout` | docs/segment-format.md:19-25 | The length, the checksum and the body at their places in every frame. |
| `Formats.SmallBodies` | docs/segment-format.md:33-66 | Node ID, tag and content of every term and vote record. |
| `Formats.SampleAppendBody` | docs/segment-format.md:68-102 | A log append with an entry of each kind, a configuration and a payload, byte by byte. |
| `Formats.SampleCheckpointBody` | docs/segment-format.md:104-160 | A snapshot checkpoint, byte by byte. |
| `Formats.EncodableExactly` | docs/segment-format.md:162-171 | A record can be encoded iff its payloads match its command entries, its suffix starts at its snapshot, no list is longer than a million and the body is at most 1 GiB. |
| `NodeStates.CheckpointLoads` | src/storage.rs:639-658 | A checkpoint loads iff it is valid and does not claim a non-zero term at index 0; it then loads as exactly its own content, whatever came before. |
| `Limits.SavedSnapshotLoads` | src/storage.rs:236-257 | After a `save_snapshot` that succeeded in any reachable state, `load` of the node succeeds, with exactly the checkpoint's content, iff the checkpoint does not claim a non-zero term at index 0; if not, `load_all` fails as well. |
| `Limits.CheckpointThatNeverLoads` | src/storage.rs:639-658 | A reachable store with one node in which `save_snapshot` accepts a checkpoint after which `load` of the node and `load_all` both fail. |
| `NodeStates.FoldKeepsInv` | src/storage.rs:1049-1065 | In every state a fold of records returns, payload keys are exactly the indexes of the retained command entries and the log starts at the snapshot's position. |
| `Folds.ValidIsMatching` | src/storage.rs:579-597 | An append is valid iff its payload indexes are exactly those of its command entries. |
| `Folds.AppendSpelledOut` | src/storage.rs:743-754 | An append succeeds iff it is valid and the log goes through its anchor, the term there being that of the last term entry; then every entry and payload up to the anchor is as before, everything behind it is the append's, and all else is unchanged. |
| `Folds.AppendAtEnd` | src/storage.rs:743-754 | A valid append behind the last entry that names the term of the last term entry always succeeds. |
| `Folds.SnapshotSpelledOut` | src/storage.rs:715-765 | A snapshot applies iff the log goes through its position or ends before it; what lies behind the position stays and everything before is gone. |
| `Folds.TermAndVote` | src/storage.rs:1049-1065 | The term and the vote of a fold are those of the last record that names one, found from the end of the list. |
| `Folds.StartAndSnapshot` | src/storage.rs:1049-1065 | Its start, configuration and snapshot are those of the last checkpoint. |
| `Folds.EntryAndPayload` | src/storage.rs:1049-1065 | At every index behind its start it has the entry and the payload of the last append that starts before the index, or of the last checkpoint, whichever is later. |
| `Folds.FoldFails` | src/storage.rs:1049-1065 | It fails iff some record is refused by what the records before it amount to: an append that is not valid or not anchored in the log, or a checkpoint that is not valid or claims a term at index 0. |
| `Folds.NaiveIsFound` | src/storage.rs:1067-1106 | So whatever the reference meaning of a stream gives a node is what those searches find, field by field. |
| `NodeStates.CompactionCommutes` | src/storage.rs:715-765 | Applying a snapshot and appending behind it commute, success or failure. |
| `NodeStates.NodeState.ApplyAppendOwned` | src/storage.rs:743-754 | The in-place append computes its specification and leaves the state alone when it fails. |
| `NodeStates.NodeState.ApplySnapshotData` | src/storage.rs:756-765 | The same for a snapshot. |
| `NodeStates.NodeState.ApplyRecordToState` | src/storage.rs:1049-1065 | The same for any record; the invariant holds afterwards. |
| `NodeStates.CheckpointIntoState` | src/storage.rs:649-658 | A checkpoint turns into the specified state or fails. |
| `ReplayProofs.TwoPassesCatchUp` | src/storage.rs:1067-1106 | Checkpoint search and replay may read different versions of the files, the second extending the first: the result is the fold of what the second read, from the last checkpoint the first saw, for any hint naming a checkpoint of the node or none. |
| `ReplayProofs.CaughtUpIsNaive` | src/storage.rs:1067-1106 | Whenever that fold gives a state, it is the naive one: the node's own records from its last checkpoint. |
| `ReplayProofs.CaughtUpContinues` | src/storage.rs:1067-1106 | That fold is the naive one of what the first pass saw, continued with the node's own records only the second saw. |
| `ReplayProofs.CaughtUpExactly` | src/storage.rs:1067-1106 | It is the naive fold of everything the second pass saw, state or error, iff that is an error or the node's records from the last checkpoint the first pass saw to the last of all fold. |
| `ReplayProofs.NoCheckpointBetween` | src/storage.rs:1067-1106 | Without a checkpoint of the node between the passes it always is. |
| `ReplayProofs.HintIndependence` | src/storage.rs:1067-1106 | On an unchanging store the result, state or error, is the naive fold, whatever the hint. |
| `ReplayProofs.LoadAllCatchesUp` | src/storage.rs:1108-1180 | The all-node replay succeeds iff that fold succeeds for every node, and then holds exactly those states, hinted or by full scan. |
| `ReplayProofs.LoadAllExactly` | src/storage.rs:1108-1180 | The all-node replay is the naive one of what the second pass saw, states or error, iff some node's fold is an error or every node's records in between fold. |
| `ReplayProofs.LoadAllIsNaive` | src/storage.rs:169-189 | `load_all` succeeds iff every node's naive fold succeeds, and returns exactly those. |
| `ReplayProofs.LoadAllAgreesWithLoad` | src/storage.rs:151-189 | `load_all` succeeds iff `load` succeeds for every node, and then they agree node by node. |
| `Replayer.ReadSegmentHeader` | src/segment.rs:241-279 | Header check, with the short-header cases for recovery and reading. |
| `Replayer.ScanCheckpointPositions` | src/storage.rs:1257-1323 | The frame loop computes the checkpoint pass over the file as finally read, although it may grow while read; on malformed files too. It does not change the file (see Left out). |
| `Replayer.ReplayNodeSegment` | src/storage.rs:1386-1442 | The same for one node's replay into a state object; the file is not changed. |
| `Replayer.ReplaySegment` | src/storage.rs:1325-1384 | The same for all nodes; the file is not changed. |
| `Replayer.DiscoverSegments` | src/segment.rs:216-239 | Segment IDs, ascending. |
| `Replayer.FindCheckpointPositionsFrom` | src/storage.rs:1211-1241 | The segment loop, with skipping and start offset, computes the checkpoint pass over what it read. |
| `Replayer.ReplayNodeState` | src/storage.rs:1067-1106 | Both passes together, over two listings of the directory. |
| `Replayer.LeastHint` | src/storage.rs:1164-1166 | The least hinted position. |
| `Replayer.ReplayStorageDir` | src/storage.rs:1108-1180 | Discovered positions override hints; without hints a full scan. |
| `Replayer.LoadAllNodes` | src/storage.rs:169-189 | All wanted nodes, those without records by default. |
| `Disks.DiskReads` | src/storage.rs:1067-1143 | A directory in order reads as the records of its surviving segments. |
| `Disks.ActiveNodeReads` | src/storage.rs:151-162 | An active node's replay from its index entry is the fold of its whole history from its last checkpoint, deleted segments notwithstanding. |
| `Disks.CutHolds` | src/storage.rs:1455-1474 | A file in use that is cut anywhere is a file in use with the records wholly before the cut. |
| `Disks.CrashKeeps` | src/storage.rs:1182-1192 | A crash that cuts a write short or loses any part of the last file beyond its durable length keeps the directory invariant and every durable record. |
| `Disks.BackKeeps` | src/storage.rs:340-370 | A crash that brings back any set of deleted segment files, because the directory was not synced yet, keeps both as well. |
| `DurableSteps.StepKeeps` | src/segment.rs:98-110 | Every durable sub-step, taken where the protocol allows it, keeps the invariant, every durable record and every record. |
| `DurableSteps.PartIsInFlight` | src/segment.rs:67-71 | A step cut short leaves only what the crash model covers. |
| `Protocol.AppendOk` | src/segment.rs:52-76 | Every step of an append, rotation included, is allowed; the record is the last of the history, at the position returned; it fails exactly for unencodable records or when segment IDs run out. |
| `Protocol.RotateOk` | src/segment.rs:98-110 | Sync, create, header: allowed in that order, and the history only gains an empty segment. |
| `Protocol.SyncPlanOk` | src/segment.rs:78-83 | After `sync` everything this engine instance wrote is durable, also when the counters made it skip the fsync. |
| `Protocol.CreateOk` | src/storage.rs:110-134 | Append, sync, index, registry: each allowed where taken; the node's first checkpoint is durable before anything refers to it. |
| `Protocol.SnapshotOk` | src/storage.rs:236-253 | The same for a checkpoint, up to garbage collection. |
| `Protocol.RemoveOk` | src/storage.rs:264-276 | Registry before index: each allowed where taken; no record is written. |
| `Protocol.BarrierMeaning` | src/storage.rs:853-913 | The barrier allows exactly the segments before every active node's checkpoint, and none if an active node has no checkpoint. |
| `Protocol.CollectOk` | src/storage.rs:340-370 | Every deletion of a collection is allowed where taken; only segment files change. That the directory is synced only after all of them is in the crash step of runs, where deleted files may be back. |
| `Protocol.PlanOk` | src/storage.rs:110-299 | Every step of every operation is allowed; afterwards memory and directory agree, a successful operation has appended its record and nothing else, and an acknowledging one has made everything of this instance durable. |
| `Runs.RecoveredHeld` | src/storage.rs:1182-1192 | Recovery of a file in use keeps exactly its whole records. |
| `Runs.EntryValidates` | src/storage.rs:1000-1034 | A good index entry passes validation at any crash point. |
| `Runs.ValidExactly` | src/storage.rs:1000-1034 | An index entry is accepted iff the whole frame of a checkpoint of its node is at its offset in a file with the right header. |
| `Runs.OpenOk` | src/storage.rs:76-103 | Opening succeeds on every directory a crash can leave, keeps every record, and leaves memory in step with it. |
| `Runs.ZeroLength` | src/storage.rs:76-79 | A maximum segment length of zero is refused. |
| `Runs.NextKeeps` | src/storage.rs:76-299 | Every step of a run keeps the invariant; only a crash shortens the history, and never below what was acknowledged. |
| `Runs.IndexAlwaysValid` | src/storage.rs:799-817 | In every state of every run, crash points included, every active node has an index entry that points at a durable, complete checkpoint of its own, and index validation accepts the store. |
| `Runs.AlwaysOpens` | src/storage.rs:76-103 | Every state of every run can be opened. |
| `Runs.LoadsHistory` | src/storage.rs:151-162 | Between operations of any run, `load` of an active node is exactly (state or error) the fold of its records in the history. |
| `Runs.CrashRecovers` | src/storage.rs:76-103 | After any crash in any run, reopening and loading gives the fold of a prefix of the history that holds every acknowledged record. |
| `Consequences.LoadAllIsHistory` | src/storage.rs:169-189 | `load_all` of an engine is exactly the folds of all active nodes' histories, or an error if one of them is. |
| `Consequences.LoadsAllHistory` | src/storage.rs:169-189 | The same between operations of any run. |
| `Consequences.LoadCutsNothing` | src/storage.rs:1286-1300 | Whenever an engine of any run may load, its active file has a whole header and ends with its last record, seen from the header or from any record: the truncation in the loading loops never happens. |
| `Consequences.LoadedState` | src/storage.rs:579-597 | Every state an engine loads has payloads for exactly its command entries and a log that starts at its snapshot. |
| `Effects.LoadedIsFound` | src/storage.rs:151-167 | Between operations of any run, crashes and reopenings included, every loaded state is what searching the node's records in the history from the end finds: term, vote, snapshot, and entry and payload at every index. |
| `Effects.OthersKept` | src/storage.rs:110-279 | From any reachable state: an operation that fails changes nothing that can be loaded, one that succeeds nothing for any node but its own, and only creation and removal change which nodes there are. |
| `Effects.CreatedLoads` | src/storage.rs:660-674 | A new node loads with term 0, no vote, an empty configuration, an empty log at position 0, no payloads and an empty snapshot. |
| `Effects.SavedTermLoads` | src/storage.rs:192-203 | After saving a term the node loads as before, but with that term. |
| `Effects.SavedVoteLoads` | src/storage.rs:205-215 | After saving a vote, or that there is none, it loads as before, but with that vote. |
| `Effects.SavedEntriesLoad` | src/storage.rs:221-228 | After an append it still loads iff the log loaded before goes through the anchor; then everything up to the anchor is as before and everything behind it is the append's. |
| `Effects.SavedCheckpointLoads` | src/storage.rs:236-257 | After `save_snapshot` it loads the checkpoint's own content, field by field, unless that claims a term at index 0. |
| `Effects.SucceedsExactly` | src/storage.rs:110-299 | An operation succeeds iff its node is new, active or of no concern, as the operation demands, and its record can be encoded and has room: behind the last one, in an empty segment, or in a next one. |
| `Effects.AcknowledgedStays` | src/storage.rs:281-299 | Over any steps, crashes and reopenings the acknowledged part of the history stays its beginning. |
| `Effects.ReturnedSurvives` | src/storage.rs:110-257 | Whatever crashes follow, the history with which `create_node` or `save_snapshot` returned is never lost. |
| `Effects.SyncedSurvives` | src/storage.rs:281-299 | Nor is a record that was saved and then synced by the same instance. |
| `Effects.StillLoads` | src/storage.rs:151-167 | A node loads the same as long as what it loaded from is kept and no record of it has come since. |
| `Consequences.CollectionInvisible` | src/storage.rs:340-370 | Deleting any subset of the segments the barrier allows changes no `load`, not `load_all`, and not the segment chosen on reopen. |
| `Consequences.CollectionNeverSeen` | src/storage.rs:340-370 | The same between operations of any run, crashes included. |
| `Collection.OperationCollects` | src/storage.rs:340-370 | The segments after a `save_snapshot` or `remove_node` that succeeds are those before it, and the active one if it had to rotate, without exactly the inactive ones the barrier allows to go. |
| `Collection.NothingLeftToCollect` | src/storage.rs:340-370 | So in any run, files a crash brought back included: after such an operation no inactive segment that the barrier allows to go is left. |
| `Collection.ExactlyTheUnneededGo` | src/storage.rs:907-912 | In plain terms: every file left is the active one or has some active node's checkpoint in it or before it, and every file gone lies before the checkpoint of every active node. |
| `Collection.IndexNamesTheNewest` | src/storage.rs:236-252 | After `create_node` or `save_snapshot` the node's index entry, in memory and on disk, is the position of the checkpoint just written, the last record of the active segment; no other entry has changed. |
| `Collection.OnlyNodeKeepsOneSegment` | src/storage.rs:340-370 | After a `save_snapshot` of the only active node just the active segment file is left. |
| `Consequences.SyncReaches` | src/storage.rs:281-299 | After `sync` the whole history is durable iff this instance had something unsynced or the whole history was durable already. |
| `Consequences.PositionsInOrder` | src/segment.rs:210-214 | The order of positions is the order of the records in the stream. |
| `Consequences.AppendIsLast` | src/segment.rs:52-76 | The position an append returns is after that of every other record of the directory's history. |
| `Consequences.PositionsIncrease` | src/segment.rs:52-76 | The same in any run, across rotations, reopenings and crashes: each append's position is after every earlier record's. |
| `Consequences.RecordReadsBack` | src/segment.rs:62-71 | Every record reads back as itself at its position for as long as its segment exists. |
| `Consequences.RecordsReadBack` | src/segment.rs:62-71 | The same in every state of every run, crash points included. |
| `Consequences.InactiveComplete` | src/segment.rs:98-110 | In every state of every run a segment that is not the last ends at the end of a record and is durable. |
| `Durability.SyncMissesEarlierInstance` | src/segment.rs:78-83 | From any reachable state: a record saved unsynced, a process stop, a reopen and a successful `sync` leave it exposed to a power loss. |
| `Durability.TermLost` | src/segment.rs:78-83 | A concrete instance from an empty directory: a new store, a node, a term saved, recovered, synced, and lost. |
| `Rotation.RotationBound` | src/segment.rs:89-110 | In any crash-free run of one threshold from an empty directory, reopenings included: only a new store's single segment is ever empty, two consecutive segments exceed the threshold and a header, bytes written bound the number of segments, and every segment above the threshold holds exactly one record iff the store is not that empty one under a threshold below a header. |
| `Rotation.OneRecordExactly` | src/segment.rs:89-96 | Over all such runs, a segment above the threshold always holds exactly one record iff the threshold is at least a header; below it the new store is the counterexample. |
| `Rotation.OperationRotates` | src/segment.rs:89-110 | Every operation keeps all of that, the exactly-one-record clause included. |
| `Rotation.SegmentCount` | src/segment.rs:89-96 | The bound on the number of segments. |
| `Readers.RunExtends` | src/segment.rs:52-110 | Over a stretch of a run in which the writer only appends and rotates, history and files only grow. |
| `Readers.SeenFits` | src/storage.rs:1243-1255 | What one pass of a reader sees, any part of a write in progress included, is a directory in order. |
| `Readers.ReaderLoads` | src/storage.rs:472-483 | A read-only `load` beside such a writer: whenever it returns a state, that is the naive fold over the records the second pass saw; and it is that fold, state or error, iff the fold is an error or the records between the checkpoints the two passes found fold. |
| `Readers.ReaderLoadsExactly` | src/storage.rs:472-483 | While the writer appends no checkpoint of the node, it is that fold outright, state or error. |
| `Readers.ReaderLoadsAll` | src/storage.rs:485-506 | The same for `load_all`: all states from one and the same prefix, and the naive result, states or error, iff some fold is an error or every node's records in between fold. |
| `Readers.ReaderLoadsAllExactly` | src/storage.rs:485-506 | While the writer appends no checkpoint of any active node, it is the naive result outright. |
| `Readers.SeenIsPrefix` | src/storage.rs:410-426 | That prefix holds every record complete when the second pass listed the directory and none not written by the end. |
| `Readers.ReaderInRun` | src/storage.rs:410-426 | All of this for `load`, over any stretch of any run of the store in which the writer only appends and rotates. |
| `Readers.ReaderAllInRun` | src/storage.rs:410-426 | The same for `load_all`, exactly the naive result while no checkpoint of an active node is appended. |
| `Limits.ReaderStaysBehind` | src/storage.rs:410-426 | From any reachable state in which a node's records do not fold: a reader under way while a new checkpoint of it is written fails, although the records it saw fold to that checkpoint. |
| `Limits.ReaderMissesCheckpoint` | src/storage.rs:410-426 | A concrete instance from an empty directory: a node, an accepted append whose anchor is not in the log, and a reader around the next checkpoint's record. |
| `Readers.ListingIsRead` | src/storage.rs:1243-1255 | The segment a reader takes for active is the last it listed, and what it reads lies between what was there at the listing and what is there in the end. |
| `Readers.LoadReturnsPrefix` | src/storage.rs:472-483 | What `ReadOnlyStorage.Load` returns beside such a writer is, whenever it is a state, the naive fold over a prefix of the stream that holds everything complete when its second pass began; and exactly when it is that fold, state or error. |
| `Readers.LoadAllReturnsPrefix` | src/storage.rs:485-506 | The same for `ReadOnlyStorage.LoadAll`, exactly the naive result while no checkpoint of an active node is appended. |
| `Lifecycle.CreatedOnce` | src/registry.rs:98-128 | Over every run, crashes and reopenings included: an ID once in the registry file stays there and cannot be created again, and a removed node is never active again, on disk or in memory. |
| `Engine.NodeRegistry.CreateNode` | src/registry.rs:98-113 | Succeeds exactly for IDs the registry has never held, removed ones included. |
| `Engine.NodeRegistry.RemoveNode` | src/registry.rs:115-124 | Removes exactly active nodes and keeps the ID reserved. |
| `Engine.CheckpointIndex.CheckpointPositions` | src/storage.rs:842-851 | Positions for all the nodes, or none. |
| `Engine.CheckpointIndex.GcBarrier` | src/storage.rs:853-868 | The loop computes the barrier: none, everything inactive, or the least checkpoint segment. |
| `Engine.SegmentWriter.constructor` | src/segment.rs:28-50 | Creates or completes the active file and stands at its end. |
| `Engine.SegmentWriter.Append` | src/segment.rs:52-76 | Takes exactly the steps of an append, returns its position, and counts it as unsynced. |
| `Engine.SegmentWriter.Rotate` | src/segment.rs:98-110 | Takes exactly the steps of a rotation; fails when IDs run out, after the sync. |
| `Engine.SegmentWriter.Sync` | src/segment.rs:78-83 | Syncs the active file exactly when a record was written since the last sync. |
| `Engine.Metrics.RecordWritten` | src/metrics.rs:225-230 | The two counters are the number and the total length of the records written since the last sync, or the greatest 64-bit number if that is less: they never wrap back to zero. |
| `Storage.SelectActiveSegment` | src/segment.rs:188-194 | The greatest segment ID, or the first. |
| `Storage.RecoverStorageDir` | src/storage.rs:1182-1192 | Succeeds iff every file can be recovered, and truncates at most the active one. |
| `Storage.ValidateCheckpointPosition` | src/storage.rs:1000-1034 | Accepts exactly positions that hold a complete checkpoint of the node. |
| `Storage.ValidateCheckpointFile` | src/storage.rs:1008-1032 | The same on one opened file, although it may grow while read. |
| `Storage.LoadIndex` | src/storage.rs:799-817 | Drops entries of nodes that are not active; fails iff a remaining one is invalid. |
| `Storage.StorageEngine.Open` | src/storage.rs:76-103 | On any directory, takes exactly the steps of the open plan and succeeds iff it does. |
| `Storage.StorageEngine.CreateNode` | src/storage.rs:110-134 | Takes exactly the steps of its plan, in order, and leaves the planned memory. |
| `Storage.StorageEngine.SaveRecord` | src/storage.rs:192-230 | The same for term, vote and entries. |
| `Storage.StorageEngine.SaveSnapshot` | src/storage.rs:236-257 | The same. |
| `Storage.StorageEngine.RemoveNode` | src/storage.rs:264-279 | The same. |
| `Storage.StorageEngine.CollectGarbage` | src/storage.rs:340-370 | Deletes, oldest first, exactly the collectable segments. |
| `Storage.StorageEngine.Sync` | src/storage.rs:295-299 | Takes the sync step iff something is unsynced. |
| `Storage.StorageEngine.Load` | src/storage.rs:151-162 | Returns what replay of the directory gives from the node's index entry, or fails for a node that is not active. It does not change the directory (see Left out). |
| `Storage.StorageEngine.LoadAll` | src/storage.rs:169-189 | Returns what the all-node replay gives; it does not change the directory. |
| `Storage.ReadOnlyStorage.Open` | src/storage.rs:449-470 | Drops entries of nodes that are not active and fails exactly if a remaining one does not point at a checkpoint in the file it names, as that file is when read. |
| `Storage.ReaderOpens` | src/storage.rs:449-470 | Beside a writer that only appends and rotates opening always succeeds, and the reader then has every active node's index entry. |
| `Storage.ReadOnlyStorage.Load` | src/storage.rs:472-483 | Two passes over a directory that may grow under the reader, the last listed segment taken as active. |
| `Storage.ReadOnlyStorage.LoadAll` | src/storage.rs:485-506 | The same for all active nodes. |
| `Storage.StaysInStep` | src/storage.rs:110-299 | The engine's methods on a directory in step with its history keep it in step, append exactly their record, and every active node then loads the fold of its history. |

## Left out

- The JSON text of `nodes.json` and `checkpoints.json` and the write-and-rename that replaces them: each is a map replaced atomically and durably.
- File handles, locks, `fsync` mechanics and I/O errors: only durable versus not durable is kept; the documentation calls a write error fatal to the instance.
- Durability of a new directory entry as a step of its own: creating a segment file and syncing its directory is one step, before the header is written. For deletions it is in the model: after a crash any deleted segment may be back.
- Durability of the cut that recovery makes: `set_len` on a torn tail is not followed by a sync, and the model takes it as durable at once, so a second crash does not bring the tail back.
- Writes that a crash turns into garbage instead of a prefix: recovery handles short tails only.
- Replayer.ScanCheckpointPositions: where the source, recovering, cuts a torn tail off the active file while loading, the model leaves the file as it is; `Consequences.LoadCutsNothing` shows that no load of any run finds one.
- Replayer.ReplayNodeSegment: leaves a torn tail in the file, for the same reason.
- Storage.StorageEngine.Load: leaves a torn tail in the file, for the same reason; on directories the engine did not write, the file would be cut.
- Storage.StorageEngine.LoadAll: leaves a torn tail in the file, for the same reason.
- Overflow of the segment length: a file of 2^64 bytes cannot arise, because rotation happens before it.
- `noraft`: it is not part of this model; a log is a start position and a list of entries, a position is in it when its index is in range and its term is that of the last term entry at or before it, and indexes stay below 2^64.
- Node metadata, the reference-counted byte wrapper, error kinds and texts, and all counters except the two that decide whether `sync` does anything.
- Readers beside a writer that collects garbage or replaces metadata: they may fail by design.
- The bytes a failed encoding leaves in an encoder, and a node state half-changed by a failed record: both are dropped by their callers.
- Storage.ReadOnlyStorage.Open: the registry and index it starts from are the two metadata files read as values; they are taken not to change while a reader is at work.
- Replayer.ReplaySegment: it leaves a torn tail in the file, for the same reason; and the map of node states is a value that the loop replaces, with a state object per record applied; aliasing between states is not modelled.

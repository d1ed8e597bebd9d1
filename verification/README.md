# A verified model of the UDDP storage core

A Dafny model of the crash-safe, group-committed write-ahead log of the unified distributed data platform, of the
key-value engine built on it, and of what rests on both: the replicated state machine, the change stream,
consumer-group offsets and the RESP listener. `dafny verify dfyconfig.toml` checks the whole project.

| file | models |
|---|---|
| `ByteSeqs.dfy`, `Codec.dfy` | little-endian integers; record payload, checksum and length framing; the encoder filling its buffer in place |
| `Recovery.dfy` | the log file, the recovery scan with torn-tail truncation, the offset index, range reads |
| `Crc32.dfy` | the CRC-32 checksum, and the damage it is sure to detect |
| `GroupCommit.dfy` | `Append` as a transition system over any number of concurrent calls, I/O failures, crashes and restarts, with its invariant |
| `GroupCommitRuns.dfy` | durability, acknowledgement, progress and cost over whole runs; range reads during appends; the single-caller case over any number of crashes |
| `WalObject.dfy` | the WAL as an object: `Append` with the leader's loop and the follower's loop among other callers |
| `History.dfy`, `Engine.dfy` | replay, and what it means record by record; the engine object and a reference that knows only the log |
| `EngineRuns.dfy` | cache equals replay, which records are permanent, exactly-once retries, compare-and-set over whole runs, down to the bytes on disk |
| `EngineOnWal.dfy` | the engine's runs and the runs of the group-committed log are the same, in both directions |
| `Replication.dfy` | the FSM, convergence of replicas, snapshot and reload |
| `Redelivery.dfy` | a replicated node that restarts and gets all its commands again |
| `Stream.dfy` | pages of the change stream and a consumer that follows them |
| `Offsets.dfy` | the consumer-offset store |
| `Resp.dfy`, `RespServer.dfy` | the RESP2 reader and writer; sessions against a plain map, with failing disks and connections |
| `Options.dfy` | a value or nothing |

## How it is modelled

- The checksum is a parameter: every statement holds for each 32-bit function of the payload. `Crc32.Crc` is the one the
  log uses; `Crc32.OneByteIsRefused` is about it.
- Each block the source runs with the WAL mutex held is one step; the fsync between two such blocks is not. A crash
  inside a block is the same as the whole block followed by a crash, because a block makes nothing durable.
- Disk: the file is always a prefix of what was handed to the buffered writer. A failed write leaves some byte
  unwritten and is sticky. A successful Sync makes durable at least what was in the file when it started. A crash keeps
  any byte prefix of the file that contains the durable bytes.
- Opening a log syncs nothing but a new header. A record that was flushed and not fsynced may be recovered, served, and
  lost again in a later crash. The run states of the engine, the stream and the offset store therefore carry a count of
  durable records: a successful Append sets it to the whole log, a restart or crash leaves it, and a crash may take any
  records behind it.
- The engine and the offset store hold their own lock across `Append`, so they see the log one call at a time.
  `EngineOnWal.EngineRunsOnWal` and `EngineOnWal.EngineRunsPossible` connect that view to the transition system: whatever
  the log does is a run of the engine, and every run of the engine is something the log can do.
- The length a record read reports is a 32-bit sum that wraps around, while the reader has consumed the whole frame; the
  recovery scan carries both positions.
- Clock readings, absolute expiries and the success of an Append are inputs. Strings are byte strings.
- Map enumeration order in `Snapshot` is arbitrary, and the clock is read anew for each entry.
- Raft is given: replicas see the same commands in the same order, and a restarted node sees all of them again, because
  snapshots are put off indefinitely (internal/replication/node.go:64-71) while the engine keeps a log of its own.

Where comments and code differ the model follows the code: `ReadRange` is bounded by the file size and not by what was
fsynced, and the dedup table is rebuilt from the log on every open.

## Results that are conditions rather than plain promises

- A frame survives its round trip exactly when it is shorter than 2^32 bytes (`Codec.FrameRoundTripIffFits`).
- Recovery of arbitrary bytes is sound exactly when no frame of 2^32 bytes or more is followed by anything
  (`Recovery.RecoveryIsSoundIff`), and opening twice is opening once exactly when then, or when nothing was torn
  (`Recovery.ReopenSameIff`). `Recovery.WrapCutsRecord` is a file that loses a complete record.
- A cut file can be reopened exactly when it is empty or its header is whole (`Recovery.TornHeaderIffUnopenable`).
- A range read panics exactly for positions above 2^63 with a positive limit (`Recovery.ReadRangePanicsIff`).
- An `Append` fails exactly as the step that ends it fails, and only if an I/O operation failed while it lasted
  (`WalObject.Wal.Append`); a waiter is given an error exactly when the last round that ended failed
  (`GroupCommitRuns.PendingErrorIff`). An error does not say that the record is not durable:
  `GroupCommitRuns.ErrorThoughDurable`.
- A record in the engine's log stays there for good exactly when a call has since appended successfully at or behind its
  position (`EngineRuns.PermanentIff`). The same condition decides whether its retries are always answered from it
  (`EngineRuns.AlwaysRetriedIff`) and whether its version identifies it to a later compare-and-set
  (`EngineRuns.VersionIdentifiesIff`). Failing runs: `GroupCommitRuns.TwoCrashesLoseRecord`,
  `EngineRuns.RecoveredRecordLost`, `EngineRuns.AbaAfterCrash`, `EngineRuns.CasWinsTwice`.
- A stream consumer stays in step exactly when no crash takes a record it was given (`Stream.StreamIsLogPrefixIff`), and
  is safe from all crashes exactly while it has read durable records only (`Stream.SafeFromCrashesIff`). Failing run:
  `Stream.LostReadDiverges`.
- A consumer group's offset can never move back exactly when a durable record carries it (`Offsets.NeverMovesBackIff`).
  Failing run: `Offsets.RecoveredOffsetLost`.
- After a failed Append whose record stayed in the log, the caches still equal a replay exactly when the mutation was
  the deletion of an absent key without an idempotency key (`Engine.FailedAppendStaleIff`).
- Replicas agree under all clocks, or all clocks that never go back, exactly when no command is a compare-and-set with a
  fresh idempotency key that meets an entry carrying an expiry and expects its version or its absence
  (`Replication.ReplicasConvergeIff`).
- A restarted node that gets its clock-free commands again ends where it was exactly when they include a wipe or a load, or
  none of them finds anything to write (`Redelivery.RedeliveryHarmlessIff`); for plain puts and deletes, exactly when each
  carries an idempotency key (`Redelivery.WritesRedeliveredIff`). Failing run: `Redelivery.RedeliverySplits`.
- A RESP session answers like a plain map exactly when the disk takes every record the plain session would write
  (`RespServer.SessionIsPlainIff`).
- An answer reads back at the client exactly when it is not an error whose text has a line feed
  (`RespServer.AnswerReadsBackIff`).

## Model

| member | source | states |
|---|---|---|
| ByteSeqs.UintOfPut | internal/wal/wal.go:294-306 | a value that fits the width is read back unchanged |
| ByteSeqs.PutOfUint | internal/wal/wal.go:248-280 | any bytes are reproduced by writing back what they were read as |
| ByteSeqs.UintLast | internal/wal/wal.go:248-280 | each byte weighs 256 times as much as the one before it |
| Codec.PayloadLayout | internal/wal/wal.go:290-310 | the exact place of position, kind, expiry, the three fields and their lengths, byte by byte |
| Codec.EncodePayload | internal/wal/wal.go:290-310 | the buffer filled through the moving offset holds the whole payload and nothing else |
| Codec.DecodeOfEncode | internal/wal/wal.go:243-310 | decoding an encoded record followed by any bytes returns the record |
| Codec.EncodeOfDecode | internal/wal/wal.go:243-310 | whatever is accepted begins with the encoding of what was returned |
| Codec.DecodeAcceptsIff | internal/wal/wal.go:243-288 | a byte string decodes to a record if and only if it begins with that record's encoding |
| Codec.TruncatedPayload | internal/wal/wal.go:243-288 | a payload that ends too early is refused with the name of the part in which it ends |
| Codec.ReadOfAnyFrame | internal/wal/wal.go:211-241 | every frame whose body length fits 32 bits reads back; the reported length is its size modulo 2^32 |
| Codec.ReadOfFrame | internal/wal/wal.go:211-241 | a frame shorter than 2^32 bytes, followed by any bytes, reads back and reports exactly its size |
| Codec.FrameRoundTripIffFits | internal/wal/wal.go:219-240 | record and reported length come back if and only if the frame is shorter than 2^32 bytes |
| Codec.ReadOfTornFrame | internal/wal/wal.go:211-228 | every proper prefix of a frame is end-of-file or torn, never corrupt and never a record |
| Codec.ReadIsLocal | internal/wal/wal.go:211-241 | a record that was read depends only on the bytes it consumed |
| Codec.ReadIff | internal/wal/wal.go:211-241 | on any bytes: torn if and only if the frame is not whole, a checksum mismatch if and only if the stored checksum is not that of the content, a record if and only if the checksum is right and the content begins with its encoding |
| Codec.OverwrittenIsCorrupt | internal/wal/wal.go:229-234 | a frame whose payload was replaced by one with another checksum reads as a checksum mismatch |
| Recovery.Recover | internal/wal/wal.go:158-197 | the loop with its reader, its separately counted offset and its next position collects what the recursive scan defines |
| Recovery.RecoveryIsExact | internal/wal/wal.go:158-197 | every byte prefix of a well-formed file opens with precisely its complete records, cut at their boundary, with their offsets |
| Recovery.TornHeaderIffUnopenable | internal/wal/wal.go:124-152 | a cut file opens if and only if nothing or the whole header is left; nothing becomes a new log, part of a header is too short |
| Recovery.AlteredHeaderIsRefused | internal/wal/wal.go:139-152 | a header with any byte changed is refused, the magic and the version told apart |
| Recovery.RecoveryIsSoundIff | internal/wal/wal.go:87-113 | on arbitrary bytes success keeps a prefix made of records 1..n and nothing else, rightly indexed, if and only if no frame whose reported length wraps is followed by anything; opening again then changes nothing |
| Recovery.ReopenSameIff | internal/wal/wal.go:167-197 | opening what was kept gives the same again if and only if nothing was cut or no wrapping frame is followed by anything |
| Recovery.WrapCutsRecord | internal/wal/wal.go:172-192 | the failing file: a torn byte behind a frame of 2^32 bytes makes the truncation remove that complete record |
| Recovery.DamageIsReal | internal/wal/wal.go:180-185 | where damage is reported everything before reads as records in sequence and the next one is corrupt or out of sequence |
| Recovery.SpoiledIsReported | internal/wal/wal.go:180-185 | bytes that are no record, or a record out of sequence, behind intact records keep the log from opening and are reported where those end |
| Recovery.AlteredIsRefused | internal/wal/wal.go:229-234 | a log with the payload of any one record altered, as far as the checksum tells, is refused at that record |
| Recovery.AlteredDiffers | internal/wal/wal.go:338-349 | such a file differs from the log's in that payload only |
| Crc32.OneByteIsDetected | internal/wal/wal.go:231 | CRC-32 differs whenever one byte does |
| Crc32.OneByteIsRefused | internal/wal/wal_test.go:185-217 | one byte changed in the payload of any record of any log keeps it from being opened |
| Recovery.CompleteIsLargest | internal/wal/wal.go:158-197 | the number of complete records is the largest whose bytes fit |
| Recovery.OffsetsAt | internal/wal/wal.go:191-193 | the index built by recovery lists header size plus the lengths of the earlier frames |
| Recovery.OffsetsAppend | internal/wal/wal.go:341-351 | the index extended by Append is the index recovery would build for the longer log |
| Recovery.ReadRange | internal/wal/wal.go:428-456 | index lookup with 64-bit wrap-around, then the read loop over the section |
| Recovery.ReadRangeIsSlice | internal/wal/wal.go:428-456 | a range read returns the contiguous slice of the records complete in the file |
| Recovery.RangeMeetsDamage | internal/wal/wal.go:444-453 | over a record altered on disk a range read returns the intact ones before it, with an error if it gets that far |
| Recovery.ReadRangePanicsIff | internal/wal/wal.go:430-434 | the slice index is out of range if and only if the position exceeds 2^63 and the limit is positive |
| GroupCommit.StepKeeps | internal/wal/wal.go:326-421 | every arrival, flush, sync outcome, wake-up, crash, close and reopen keeps the invariant |
| GroupCommit.CoveredIsDurable | internal/wal/wal.go:356-368 | a covered follower that sees no error has its record on disk |
| GroupCommit.SyncBooked | internal/wal/wal.go:387-407 | a successful Sync makes everything it announces durable, the leader's record included |
| GroupCommit.ReopenFinds | internal/wal/wal.go:87-113 | reopening after any cut behind the durable bytes finds a prefix of the log with every durable record |
| GroupCommitRuns.CrashDurability | internal/wal/wal.go:312-421 | whatever the interleaving, I/O outcomes and crash point, recovery yields a prefix of the assignment order holding every record acknowledged so far |
| GroupCommitRuns.AckedForever | internal/wal/wal.go:326-421 | acknowledgements are never lost or changed over any number of crashes and restarts |
| GroupCommitRuns.AckIsNew | internal/wal/wal.go:326-421 | a step acknowledges at most one record, at a position never acknowledged before |
| GroupCommitRuns.AckedStaysInLog | internal/wal/wal.go:329-330 | no acknowledged position is ever reused |
| GroupCommitRuns.CountersGrow | internal/wal/wal.go:371-407 | flushedSeq, pendingSeq and the durable bytes never decrease and the log only grows while the process lives |
| GroupCommitRuns.NoFalseAcknowledgement | internal/wal/wal.go:356-407 | in every reachable state without a pending error, everything up to flushedSeq survives any crash |
| GroupCommitRuns.OneLeaderNoStrandedWaiter | internal/wal/wal.go:356-420 | at most one leader, one exactly while leading is set, and without one every waiter is already covered |
| GroupCommitRuns.RoundAdvances | internal/wal/wal.go:371-420 | every finished round, a first round whose flush fails included, strictly advances flushedSeq |
| GroupCommitRuns.PendingErrorIff | internal/wal/wal.go:370-402 | the pending error is set if and only if the last round that ended in this process failed |
| GroupCommitRuns.ErrorHasCause | internal/wal/wal.go:356-402 | an error found after flushedSeq has moved comes from a round that failed since |
| GroupCommitRuns.ErrorThoughDurable | internal/wal/wal.go:371-420 | the run in which a leader answers with an error although its record is durable |
| GroupCommitRuns.SomeoneCanMove | internal/wal/wal.go:356-420 | while a call is in flight some call can take a step |
| GroupCommitRuns.LeaderCanSucceed | internal/wal/wal.go:371-420 | unless the writer is broken with records unflushed, the leader's round can end in success |
| GroupCommitRuns.CallsDrain | internal/wal/wal.go:356-420 | once arrivals stop, the calls in flight return within a fixed number of steps, and then none is left |
| GroupCommitRuns.RoundsBounded | internal/wal/wal.go:371-420 | no more flush-and-sync rounds than records buffered |
| GroupCommitRuns.ReadRangeDuringAppends | internal/wal/wal.go:428-456 | with offset looked up at one moment and the file read at a later one, the contiguous slice complete by then |
| GroupCommitRuns.ReadRangeAtOnce | internal/wal/wal.go:428-456 | at any moment of any run, exactly the slice of the records complete in the file |
| GroupCommitRuns.AckedInFile | internal/wal/wal.go:423-456 | acknowledged records are always within reach of a range read |
| GroupCommitRuns.SoloAppend | internal/wal/wal.go:326-421 | for one caller at a time, with any undurable tail, a successful Append is one atomic extension of the log and makes all of it durable |
| GroupCommitRuns.SoloAppendPossible | internal/wal/wal.go:326-421 | on a working disk that extension can always be made |
| GroupCommitRuns.SoloCrash | internal/wal/wal.go:326-421 | a crash in the middle of it leaves a prefix of the log with or without that record, never less than the durable ones, in a state to go on from |
| GroupCommitRuns.IdleCrash | internal/wal/wal.go:87-113 | a crash between calls leaves a prefix with every durable record |
| GroupCommitRuns.CrashPossible | internal/wal/wal.go:326-421 | every number of records between the durable and the flushed ones is what some crash leaves, and none of them becomes durable by it |
| GroupCommitRuns.IdleRestart | internal/wal/wal.go:87-113 | a clean restart between calls loses nothing |
| GroupCommitRuns.TwoCrashesLoseRecord | internal/wal/wal.go:87-152 | the run in which a record is recovered after one crash and lost in the next, since opening does not sync |
| WalObject.OthersKeepCall | internal/wal/wal.go:386-388 | whatever other calls do while the mutex is released, a call in flight stays as it was |
| WalObject.Wal.constructor | internal/wal/wal.go:104-113 | a new WAL is the start of a run |
| WalObject.Wal.Open | internal/wal/wal.go:87-113 | opening what a closed or crashed process left always succeeds, holds everything acknowledged, and carries on that process's run |
| WalObject.Wal.Write | internal/wal/wal.go:341-349 | buffering passes bytes on in order, or fails for good with some byte unwritten |
| WalObject.Wal.Sync | internal/wal/wal.go:386-388 | a Sync among other callers leaves the leader leading and covers the file it started with |
| WalObject.Wal.Wait | internal/wal/wal.go:359-361 | a waiter is woken only by an advance of flushedSeq |
| WalObject.Wal.Follower | internal/wal/wal.go:356-368 | the waiting loop ends with the step that wakes it and the answer that step gives: success for an acknowledged record, an error only if an I/O operation failed since |
| WalObject.Wal.Leader | internal/wal/wal.go:370-420 | the leader loop ends when arrivals are finite; it answers success if and only if it stepped down after a successful Sync, its record acknowledged, and an error only if its own Sync or flush failed |
| WalObject.Wal.Append | internal/wal/wal.go:326-421 | the call brings its record in one step and ends in one step and answers as that step says: success returns the next position, newly acknowledged with this record; an error only if an I/O operation failed while it lasted |
| WalObject.Wal.AcknowledgedSurvives | internal/wal/wal.go:312-325 | whatever a crash leaves of the file, recovery finds an acknowledged record at its position |
| History.IndexIsLastRecord | internal/engine/engine.go:85-101 | the index holds exactly the keys whose last record is a Put, with its value, position and expiry |
| History.DedupIsLastUse | internal/engine/engine.go:97-99 | the dedup table holds exactly the idempotency keys in the log, with the position of their last use |
| Engine.LookupIsHistory | internal/engine/engine.go:105-121 | a cached read is what the key's last record says at that time |
| Engine.ExecIsHistory | internal/engine/engine.go:146-273 | a mutation through the caches does and answers what the log alone dictates, and leaves the caches equal to a replay |
| Engine.CommitIsRead | internal/engine/engine.go:157-178 | a mutation that commits is answered with the next position, and its key then reads the value asked for until its expiry, or nothing after a delete, at every time |
| Engine.CommitSparesOthers | internal/engine/engine.go:172-177 | every other key reads as before and every other idempotency key is remembered as before |
| Engine.CommitIsRemembered | internal/engine/engine.go:231-236 | any later use of its idempotency key is answered with its position and changes nothing |
| Engine.CommitIsRecorded | internal/engine/engine.go:157-163 | the record in the log, field by field |
| Engine.NoCommitNoChange | internal/engine/engine.go:231-249 | a duplicate or a version mismatch changes nothing, and which of the two is answered |
| Engine.FailedIsNotRead | internal/engine/engine.go:164-166 | a failed Append changes no read and remembers no key, but uses up a position |
| Engine.CommitsIsHistory | internal/engine/engine.go:231-249 | whether a mutation commits is decided by the log alone |
| Engine.FailedAppendStaleIff | internal/engine/engine.go:157-166 | when the caches still equal a replay after a failed Append |
| Engine.KvEngine.constructor | internal/engine/engine.go:67-83 | opening replays every recovered record into empty maps |
| Engine.KvEngine.ReplayRecord | internal/engine/engine.go:85-101 | one record applied to both maps |
| Engine.KvEngine.Get | internal/engine/engine.go:105-121 | the live value and version of the key, as its last record has them |
| Engine.KvEngine.ApplyPut | internal/engine/engine.go:146-179 | the whole new state and reply, equal to the log-only reference when the caches were consistent |
| Engine.KvEngine.Remove | internal/engine/engine.go:184-210 | the same for deletion, tombstone of an absent key included |
| Engine.KvEngine.ApplyCompareAndSet | internal/engine/engine.go:227-273 | the same for compare-and-set, mismatch and duplicate included |
| Engine.KvEngine.Snapshot | internal/engine/engine.go:316-332 | with one clock reading per entry, lists once each and in any order entries that had not expired at the start, all that had not at the end among them |
| Engine.KvEngine.Reset | internal/engine/engine.go:340-359 | the state of a new engine, or on an error of Close, Remove or Open the old one, which then is that of the file unless records were removed with it |
| EngineRuns.CacheEqualsReplay | internal/engine/engine.go:85-273 | in every reachable state both caches equal a replay of the log |
| EngineRuns.EntryIsLastRecord | internal/engine/engine.go:85-101 | in every reachable state each entry's version is the position of its key's last record |
| EngineRuns.RestartInvisible | internal/engine/engine.go:67-83 | inserting a restart anywhere changes no later state |
| EngineRuns.LogGrows | internal/engine/engine.go:146-273 | without a reset or a crash the log is only ever extended |
| EngineRuns.DurableStays | internal/engine/engine.go:67-83 | without a reset no number of crashes takes or changes a durable record |
| EngineRuns.DurableIff | internal/engine/engine.go:146-179 | a position is durable if and only if some call has successfully appended at or behind it since the last reset |
| EngineRuns.PermanentIff | internal/engine/engine.go:146-179 | a record, recovered or not, survives every future if and only if a successful Append has covered it |
| EngineRuns.RecoveredRecordLost | internal/engine/engine.go:67-83 | the run in which a retry is answered from a recovered record that the next crash takes away |
| EngineRuns.ReadsLastWrite | internal/engine/engine.go:105-117 | until another record touches its key, what a completed call wrote or deleted is what every read finds, after any restarts and crashes |
| EngineRuns.NoDuplicateCommits | internal/engine/engine.go:150-155 | no run, crashes in mid-append and retries included, leaves two records with one idempotency key in the log |
| EngineRuns.RetryReturnsOriginal | internal/engine/engine.go:231-236 | every later use of the idempotency key of a durable record, or of any record as long as nothing crashes, returns its position, marked deduplicated, and changes nothing |
| EngineRuns.CommittedCallRetries | internal/engine/engine.go:150-155 | a call that came back with a new position can be retried forever, across any crashes |
| EngineRuns.AlwaysRetriedIff | internal/engine/engine.go:150-155 | retries are answered from a record in every future if and only if a successful Append has covered it |
| EngineRuns.CasCommitsIff | internal/engine/engine.go:238-249 | commits on version v > 0 if and only if the key's last record is the unexpired Put at v and the idempotency key is fresh |
| EngineRuns.CasCreatesIff | internal/engine/engine.go:238-249 | commits on version 0 if and only if the key is absent, deleted or expired and the idempotency key is fresh |
| EngineRuns.NoAba | internal/engine/engine.go:227-273 | between reading v, durable or with no crash since, and a commit on v the record at v is unchanged and no other touches the key |
| EngineRuns.VersionIdentifiesIff | internal/engine/engine.go:227-273 | a commit on a version that was read meets that very record in every future if and only if a successful Append has covered it |
| EngineRuns.AbaAfterCrash | internal/engine/engine.go:227-273 | otherwise, the future in which another record has taken its position and the commit succeeds |
| EngineRuns.CasWinsOnce | internal/engine/engine.go:227-273 | a second compare-and-set on one key and version writes only if the record of the first was lost |
| EngineRuns.CompletedCasWinsOnce | internal/engine/engine.go:227-273 | once one has returned success no other ever writes, across restarts and crashes |
| EngineRuns.CasWinsTwice | internal/engine/engine.go:227-273 | the run in which two write: the first died before its fsync, was recovered and lost |
| EngineRuns.CrashOnDisk | internal/engine/engine.go:67-83 | dying in a call at any byte behind the durable records and recovering from the file gives the engine that the crash event gives, with the records complete in what is left |
| EngineOnWal.EventMatches | internal/engine/engine.go:146-273 | each call, crash, restart or reset, however it is carried out on the log, leaves log and engine with the same records and nothing counted durable that is not |
| EngineOnWal.EngineRunsOnWal | internal/engine/engine.go:67-359 | over whole runs the log the engine believes in is the log there is, and what it counts as durable survives any crash |
| EngineOnWal.EngineRunsPossible | internal/engine/engine.go:67-359 | every run of the engine, failing ones included, is carried out by some run of the log |
| Replication.Fsm.Apply | internal/replication/fsm.go:36-59 | the engine state and result each command produces, unknown commands included |
| Replication.Fsm.Restore | internal/replication/fsm.go:61-71 | wipe, then the entries re-applied in order |
| Replication.CommandIsRead | internal/replication/fsm.go:36-59 | each command through every read and its reply: a committing write, one that does not commit, a wipe, an unknown command |
| Replication.ReplicaReadsLastWrite | internal/replication/fsm.go:36-59 | a replica that applied a committed write, and since then nothing concerning its key, reads what it asked for at the position it answered with |
| Replication.RunIsDictated | internal/replication/fsm.go:36-59 | over whole runs log, caches and answers are those of the commands folded over the log alone |
| Replication.LoadedReads | internal/replication/fsm.go:61-71 | after loading any entries, duplicates included, each key reads what its last entry says |
| Replication.Converge | internal/replication/fsm.go:36-59 | same commands, any two clocks: same log, caches and results when no command is clock sensitive |
| Replication.Diverge | internal/engine/engine.go:238-249 | otherwise two clocks, neither ever going back, under which the results differ |
| Replication.ReplicasConvergeIff | internal/replication/fsm.go:36-59 | replicas starting from the same consistent state agree under all clocks, or all that never go back, if and only if the commands are clock free |
| Replication.ResetReconciles | internal/replication/fsm.go:50-53 | after a wipe or a snapshot load replicas in unrelated states agree from then on |
| Replication.ReloadIsReplay | internal/replication/fsm.go:88-105 | a reload leaves the engine as a replay of the reloaded log would |
| Replication.ReloadPreservesReads | internal/engine/engine.go:312-359 | snapshot, reset and reload: every key reads the same at every time from the end of the snapshot on, whatever the order of the entries |
| Replication.ReloadedVersions | internal/replication/fsm.go:61-71 | the reloaded keys are those of the snapshot and their versions are 1..n, each once |
| Redelivery.ResetForgets | internal/replication/fsm.go:50-53 | with a wipe or load among clock-free commands, neither the state they start from nor the clock matters |
| Redelivery.RedeliveryHarmlessIff | internal/replication/node.go:64-71 | after a restart and a second delivery of all commands the state is that of before if and only if there was a wipe or load or nothing is written |
| Redelivery.WritesRedeliveredIff | internal/engine/engine.go:150-155 | for puts and deletes, if and only if each carries an idempotency key |
| Redelivery.RedeliverySplits | internal/engine/engine.go:243-249 | the input: after one plain Put a compare-and-set succeeds on the node that stayed up and fails on the one that restarted |
| Stream.FetchIsReadRange | internal/engine/engine.go:291-301 | fetching from the log is the byte-level range read |
| Stream.Fetch | internal/api/stream_server.go:29-59 | the page and next offset the loop computes, argument errors included |
| Stream.PageIsContiguous | internal/api/stream_server.go:36-58 | a page starts where asked, is as long as limit and log allow, and names the offset right behind it |
| Stream.PageIs | internal/api/stream_server.go:29-58 | the page for any offset and limit: 500 records where none was asked for, empty beyond the end, refused at 0 |
| Stream.CommitIsPublished | internal/engine/engine.go:275-301 | a commit is readable at its version and is the one new change of the stream, at that offset |
| Stream.StreamIsLogPrefix | internal/api/stream_server.go:46-58 | following the next offset, with any limits and interleaved mutations, restarts and crashes that take nothing already read, yields exactly a log prefix |
| Stream.MutateInStepIff | internal/engine/engine.go:275-301 | a consumer stays in step through a crash if and only if the crash takes nothing it has read |
| Stream.StreamIsLogPrefixIff | internal/api/stream_server.go:46-58 | a consumer is in step throughout a run if and only if no crash of it takes a record already read |
| Stream.SafeFromCrashesIff | internal/api/stream_server.go:46-58 | no crash can put a consumer out of step if and only if it has read durable records only |
| Stream.LostReadDiverges | internal/engine/engine.go:287-301 | the run in which a consumer keeps a change that the log never had, and is given no other for its position |
| Stream.PollAdvances | internal/api/stream_server.go:46-58 | a consumer that is behind always gets closer |
| Stream.FoldIsReplay | internal/engine/engine.go:275-301 | folding change records is replaying the log, seen as values and versions |
| Stream.StreamEqualsState | internal/engine/engine.go:275-301 | a caught-up consumer that lost nothing has rebuilt every key, value and version of the index and nothing else |
| Offsets.DecodeOfEncodeOffset | internal/streaming/offsets.go:47-55 | a 64-bit offset is read back unchanged |
| Offsets.OpenStore | internal/streaming/offsets.go:32-45 | opening rebuilds the map from the log, or panics if and only if a value is shorter than eight bytes |
| Offsets.ReplayIsLast | internal/streaming/offsets.go:42-55 | on any log opening panics if and only if a value is too short, and otherwise finds each group's last offset |
| Offsets.OffsetStore.CommitOffset | internal/streaming/offsets.go:60-73 | the whole new state and reply of a commit, regression and failed append included |
| Offsets.CommitAnswers | internal/streaming/offsets.go:60-73 | what a commit answers and stores: the current offset and no change, the new offset, or an error and the old map; and the record it writes |
| Offsets.OffsetsAreMaxima | internal/streaming/offsets.go:42-73 | in every reachable state, any number of crashes included, each stored offset is the maximum of its group's surviving records and at least every acknowledged one |
| Offsets.NeverMovesBack | internal/streaming/offsets.go:57-73 | a group's offset does not decrease while a durable record carries it or nothing crashes |
| Offsets.NeverMovesBackIff | internal/streaming/offsets.go:57-73 | it cannot decrease in any future if and only if a durable record carries it |
| Offsets.AcknowledgedStays | internal/streaming/offsets.go:57-73 | no later state serves less than an acknowledged offset |
| Offsets.RecoveredOffsetLost | internal/streaming/offsets.go:32-45 | the run in which an offset is recovered, served and then gone |
| Offsets.RefusedIff | internal/streaming/offsets.go:64-66 | a commit is refused if and only if an earlier record of the group lies ahead of it |
| Resp.AtoiIff | internal/resp/protocol.go:39-42 | what parses as a number and as which: exactly the spellings, signed and zero-padded ones included, of 64-bit integers |
| Resp.ReadHeader | internal/resp/protocol.go:79-90 | a header line reads back as its mark and number and ends where it was written to end |
| Resp.ReadOfLine | internal/resp/protocol.go:79-90 | a line reads back whether CR LF or LF ends it |
| Resp.ReadOfAnyBulk | internal/resp/protocol.go:56-77 | any bytes, line feeds included, survive as a bulk string, whatever two bytes end it |
| Resp.ReadOfNull | internal/resp/protocol.go:68-70 | a null bulk string reads as no bytes and takes up its line only |
| Resp.LineRefused | internal/resp/protocol.go:36-42 | a line that does not announce at least one part is a protocol error |
| Resp.BulkLineRefused | internal/resp/protocol.go:61-67 | a line that does not announce a length is a protocol error |
| Resp.ReadOfCommand | internal/resp/protocol.go:31-54 | a command followed by anything reads back and consumes exactly its bytes |
| Resp.PipelineRoundTrip | internal/resp/protocol.go:31-90 | any pipelined sequence of commands parses back to exactly that sequence and then ends cleanly |
| Resp.CutPipeline | internal/resp/protocol.go:31-90 | a connection that breaks at any byte delivers exactly the commands that arrived whole, and nothing is misread |
| Resp.Reader.NextLine | internal/resp/protocol.go:79-90 | the reader's search for the line feed finds the first one |
| Resp.Reader.NextBulk | internal/resp/protocol.go:56-77 | the reader consumes exactly one bulk string, null and truncated ones included |
| Resp.Reader.NextCommand | internal/resp/protocol.go:31-54 | the reader's loop consumes exactly one command |
| RespServer.DeletedView | internal/resp/server.go:103-114 | DEL removes all its keys and counts the live ones once each, however often they are named |
| RespServer.DeletedForGood | internal/resp/server.go:103-114 | a live key that was named is missing at all times, a key that was not reads as before |
| RespServer.DeletedFails | internal/resp/server.go:103-114 | if one of its Appends fails, DEL answers with the error, the keys before that one are gone and it is still there |
| RespServer.DispatchIsPlain | internal/resp/server.go:64-119 | if the disk takes its records, every command answers and moves as on a plain map, argument errors included |
| RespServer.DispatchFails | internal/resp/server.go:64-119 | otherwise it answers with the engine's error; SET changes nothing, DEL stops at the failing key |
| RespServer.VerbIff | internal/resp/server.go:65-117 | the spellings names are compared with |
| RespServer.SetMeans | internal/resp/server.go:79-97 | SET by its arguments: what is stored under which key until when, at every time, and which refusal each malformed form gets |
| RespServer.PlainSetMeans | internal/resp/server.go:79-97 | the same on the plain map |
| RespServer.PlainOther | internal/resp/server.go:66-117 | PING, GET, DEL and unknown commands on the plain map |
| RespServer.SessionIsPlainIff | internal/resp/server.go:41-58 | a whole session under a fixed clock answers as a plain map would if and only if the disk takes every record that session would write |
| RespServer.AnswerReadsBackIff | internal/resp/protocol.go:94-123 | an answer reads back as what it means, and the next one starts behind it, if and only if it is not an error with a line feed in its text |
| RespServer.AnswersDiffer | internal/resp/protocol.go:94-123 | different answers are different bytes |
| RespServer.TranscriptReadsBack | internal/resp/protocol.go:94-123 | the replies of a whole session come apart again at the client |
| RespServer.ConversationOnTheWire | internal/resp/server.go:41-119 | PING, SET, GET, DEL and GET of any key and value, byte for byte in both directions |
| RespServer.Server.Dispatch | internal/resp/server.go:64-119 | the engine state and the one answer of a command, engine errors included |
| RespServer.Server.DeleteAll | internal/resp/server.go:103-114 | the DEL loop, ended early by a failing Append |
| RespServer.Server.HandleConn | internal/resp/server.go:41-58 | the bytes written are the answers to the commands on the wire, cut where the connection fails; the engine has executed the commands up to the first whose answer did not fit; with a working disk the answers are those of a plain map |

## Left out

- Raft, its transport and its stores: replicas are given the same command sequence, in full and in order.
- Media corruption beyond payloads and header: a damaged length field looks like a torn tail; an unsynced truncation is taken to stay truncated.
- A range read concurrent with an engine mutation: it can see a record that is in the file and not yet durable; the stream results take engine operations as atomic.
- Runs of engine, offset store and FSM in which an Append fails: only single calls, and RESP sessions, cover the failure.
- Records whose frame has 2^32 bytes or more: their encoding and recovery are covered, but `Append` and the logs of the transition system hold records that fit.
- WalObject.Wal.Append: ends only because finitely many other calls arrive (`toCome`); the two buffered writes of length and body are one.
- Engine.KvEngine.Reset: that the log handle is closed after a failure, so that later Appends fail, is not modelled.
- Replication.Fsm.Apply: the outcome when an Append or a Reset fails is left to the engine's own contracts.
- Stream.StreamIsLogPrefix: resets are excluded, and runs of 2^63 actions or more, where an offset would leave the signed range.
- RespServer.Server.HandleConn: one connection and a fixed clock; other connections are not modelled.
- Memory exhaustion and the panics of allocating announced lengths that no input could fill.
- Upper-casing, case folding, TTL-to-nanosecond arithmetic and error wording are parameters of the RESP server.
- gob and SHA-256 encodings, gRPC plumbing, namespaces, authentication, metrics, benchmarks and command-line programs.

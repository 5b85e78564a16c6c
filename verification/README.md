# A verified model of db45

db45 is a small relational database: an LSM storage engine, a table layer with an
order-preserving key encoding, and a SQL front end. This project models the engine, the
codec, the planner, the execution of SELECT, INSERT, UPDATE and DELETE, and the expression
parser, and proves what they promise. `dafny verify dfyconfig.toml` checks all of it.

## The parts

**Storage.** A level is a strictly sorted run of (key, value, tombstone) records
(`Levels.dfy`). `MergeCursor.dfy` is the k-way merge that can turn round in mid-walk, with the
level cursors, `which`, `frontier` and `desc` as the fields that its methods update;
`RangeScan.dfy` the tombstone filter and the range cursor; `SortedArray.dfy` the MemTable with
its three parallel slices; `SSTable.dfy`, `LogFile.dfy` and `MetaSlots.dfy` the three kinds of
file, byte by byte for the first two. `Disk.dfy` says what a crash inside a disk operation may
leave, `Engine.dfy` is the engine as a state machine over a directory and a MemTable,
`CrashSafety.dfy` says what a crash at any point of any call leaves and how it opens.
`MapOverLog.dfy` proves that over whole runs, whatever they leave at the end of the log, the
engine is exactly a live map over a disk map and a log of raw bytes; `DurableMap.dfy` reads off
from that when it is an atomic durable map, `TornTail.dfy` when it is not. `Volume.dfy` and
`Compaction.dfy` carry size limits and the tier invariant through a compaction. `Device.dfy`
and `KVStore.dfy` are the imperative engine: each method is proved to take the state machine's
step and to issue exactly that step's disk operations, in order.

**Tables.** `KeyCodec.dfy` and `Rows.dfy` encode typed cells and rows as byte strings whose
order is the order of the values, with sentinel bytes for the open ends of a range.

**SQL.** `Expressions.dfy` is the interpreter and the reference meaning of a condition,
`EvalLaws.dfy` what each operator computes; `Planner.dfy` turns a condition into the bounds of
one key range and proves the two agree; `Acceptance.dfy` says which conditions it takes,
`PlannerLimits.dfy` and `Retyping.dfy` exactly where the two do not agree. `Selection.dfy` lifts
this from keys to rows of a stored table, `Updates.dfy` states what the three writing
statements do to a table, `Execution.dfy` runs all four on the engine. `Tokens.dfy`,
`Grammar.dfy` and `Parser.dfy` are the expression parser, as a function of the text and as the
cursor-moving class; `Printer.dfy` prints with minimal parentheses and proves that parsing
undoes it, `Parentheses.dfy` that none of them can be left out, `Precedence.dfy` how texts with
several operators are grouped.

## What holds, and where the code stops short

The main results: the merge cursor walks like a plain cursor over the merged map
(`MergeCursor.MergedIter.Step`), and does so on every walk exactly when it cannot turn at a stored
empty key (`MergeCursor.WalksAgreeExactlyWhen`); over every run of calls, crashes and
power losses the engine is a map over a log (`MapOverLog.EngineIsAMapOverALog`), and an atomic
durable map as long as writes are made behind a clean log tail
(`DurableMap.EngineIsAtomicDurableMap`), which they are unless an append is torn
(`DurableMap.TidyRunsAreCareful`); compaction keeps the map and bounds the number of
levels (`KVStore.KV.Compact`, `Compaction.LevelCountIsLogarithmic`); a query returns exactly
the rows satisfying its condition, in primary-key order (`Selection.QueryIsExact`), for every
condition that is planned right, and those are known exactly
(`PlannerLimits.PlanIsRightExactlyWhen`); UPDATE is simultaneous assignment
(`Updates.UpdateIsSimultaneous`); parsing undoes printing (`Printer.ParsePrint`).

On some inputs the code does something else than its comments say. The
model follows the code, and each case has its exact extent:

- The merge cursor keeps its frontier as a byte slice and treats nil as "exhausted"
  (storage/merge.go:60-66, 99-105). A live empty key is stored as nil, so turning upward on it
  ends the walk: `StepDepartsExactlyWhen` for one step, `WalksAgreeExactlyWhen` for all walks,
  `EmptyKeyLosesTheWalk` for an instance.
- An exhausted cursor does not step back in (storage/merge.go:99-105), so the correction at
  storage/ranged.go:59-63 does nothing when no live key is at or above `start`, and a descending
  range is then empty: `DescendingCompleteExactlyWhen`, with `DescendingMissesTheTop` as an
  instance.
- A torn log tail is skipped on replay but stays in the file (storage/kv.go:61-76,
  storage/log.go:61-71), and the store goes on appending behind it. Such a write is
  acknowledged and visible; the log replays nothing new exactly when the torn bytes are still
  torn with it, and then the next power loss takes the write back
  (`LogFile.WriteIsLostExactlyWhen`, `TornTail.WriteIsLostExactlyWhen`). Behind a record with a
  bad checksum that is every write, for good (`NothingLastsBehindABadSum`). A finished flush
  saves whatever was written behind any tail (`FlushedWritesLast`). A flush cut between its
  metadata write and the truncation (storage/kv.go:243-250) is atomic exactly when every record
  that the log replays shows what the store shows (`FlushCrashIsAtomicExactlyWhen`); behind a
  torn tail it can bring back an old value beside a new one, a map the store never held
  (`FlushBringsBackOldValues`).
- Two bounds on the same side of one AND: the second overwrites the first
  (sql/planner.go:180-184). Constants are retyped to their column by the planner
  (sql/planner.go:119-126) while the interpreter refuses mixed types (sql/eval.go:80-83).
  `RangeIsWrongExactlyOn` gives, for every accepted condition and every row, exactly when the
  plan and the interpreter disagree; `PlanIsRightExactlyWhen` the conditions, known before any
  row is read, on which they agree in every row: a doubled bound is harmless exactly when the
  right one implies the left one, whatever the operators and lengths of the two. Instances are
  `ForgottenBound` and, for a constant of the wrong type, `MistypedBound`.
- Record bodies are sized by a 32-bit sum. A log record (storage/entry.go:61) is read back exactly
  when its lengths fit (`LogFile.RoundTripExactlyWhenSmall`), an SSTable (storage/sstable.go:99)
  exactly when those of each of its records do (`SSTable.BuildFileHolds`).
- The comment above `Compact` says that a merge backs up (storage/kv.go:204-208); the loop looks
  at the same pair again and never at the one above (storage/kv.go:215-223). The tier bound is
  proved for that loop; the last pair is exempt, because dropping tombstones can shrink the last
  level.

## Model

| member | source | states |
|---|---|---|
| Bytes.Trichotomy | storage/sortedarray.go:50-52 | key comparison is a total order: exactly one of before, equal, after |
| Levels.RankSplits | storage/sortedarray.go:50-52 | the insertion point splits a sorted run into smaller keys and the rest |
| Levels.MergeAllSorted | storage/merge.go:32-45 | the merge of sorted levels is strictly sorted: no key twice |
| Levels.MergeAllFind | storage/merge.go:68-91 | every key of the merge carries the newest level's record, tombstones included |
| Levels.MergeAllSize | storage/merge.go:14-20 | the estimate never falls short of what the merge yields |
| Levels.DropDeletedFind | storage/filterdel.go:46-67 | filtering tombstones removes exactly the deleted keys |
| Levels.MergePairKeepsFind | storage/kv.go:270-293 | merging two adjacent levels anywhere in a stack changes no key's newest record |
| Levels.DropAtBottom | storage/kv.go:274-277 | dropping tombstones of the last level changes no visible value |
| Levels.DropIsSafeExactlyWhen | storage/kv.go:274-277 | dropping them elsewhere is safe exactly when no level below shows a key they alone hide |
| MergeCursor.StepDepartsExactlyWhen | storage/merge.go:99-132 | one step differs from a plain cursor's exactly on an upward turn at a live empty key with more keys above |
| MergeCursor.WalksAgree | storage/merge.go:55-132 | over any walk of nexts and prevs the merge is where a plain cursor over the merged run is, unless it can be turned at a stored empty key |
| MergeCursor.WalksAgreeExactlyWhen | storage/merge.go:55-132 | they agree over all walks exactly when the cursor is exhausted, the run has at most one record, or none of its keys is empty |
| MergeCursor.EmptyKeyLosesTheWalk | storage/merge.go:60-66 | with an empty key, down and up again ends exhausted instead of where it began |
| MergeCursor.CutStep | storage/merge.go:117-131 | moving past one merged key moves each level exactly past that key |
| MergeCursor.CutAtRank | storage/merge.go:28-45 | seeking every level to a key puts them all at one cut of the merged run |
| MergeCursor.ExtremeIsNext | storage/merge.go:75-91 | the level picked stands on the next record of the merged run, newest level first among equals; none is picked exactly at the end |
| MergeCursor.LevelCursor.Reorient | storage/merge.go:143-168 | a level moves to the first key strictly past the frontier in the new direction, from wherever it stood on the other side |
| MergeCursor.MergedIter.constructor | storage/merge.go:32-45 | a merge opened on aligned levels rests on the first record of the merged run at the cut, or is exhausted |
| MergeCursor.MergedIter.Settle | storage/merge.go:126-131 | with all levels at a cut, the record emitted is the next of the merged run |
| MergeCursor.MergedIter.Extreme | storage/merge.go:75-91 | returns the lowest-numbered level on an extreme key, -1 when every level is exhausted |
| MergeCursor.MergedIter.ReorientAll | storage/merge.go:106-112 | a turn carries every level from one side of the frontier to the other |
| MergeCursor.MergedIter.AdvancePast | storage/merge.go:116-125 | every level on the emitted key, and no other, moves past it |
| MergeCursor.MergedIter.Step | storage/merge.go:93-132 | a step moves to the neighbouring record of the merged run in either direction; exhaustion is absorbing |
| MergeCursor.MergedIter.Turn | storage/merge.go:99-115 | a change of direction lands on the neighbour on the other side; a nil frontier only clears `which` |
| MergeCursor.MergedIter.Next | storage/merge.go:93-97 | Next is one upward step |
| MergeCursor.MergedIter.Prev | storage/merge.go:93-97 | Prev is one downward step |
| RangeScan.LiveStepUp | storage/filterdel.go:22-32 | stepping up and then past tombstones is one step of the live run |
| RangeScan.NoDeletedIter.constructor | storage/filterdel.go:6-13 | a fresh filter rests on the first live record at or after the seek position |
| RangeScan.NoDeletedIter.Next | storage/filterdel.go:22-32 | one upward step over the live records |
| RangeScan.NoDeletedIter.Prev | storage/filterdel.go:34-44 | one downward step over the live records |
| RangeScan.NoDeletedIter.CurrentIsLive | storage/filterdel.go:6-44 | what is shown is the record at the live position |
| RangeScan.AscendingExact | storage/ranged.go:27-65 | an ascending range yields exactly the live records with start <= key <= stop, in increasing order |
| RangeScan.DescendingSound | storage/ranged.go:51-65 | a descending range is decreasing, and yields exactly those with stop <= key <= start provided some live key is at or above start, nothing otherwise |
| RangeScan.DescendingCompleteExactlyWhen | storage/ranged.go:56-63 | it is complete exactly when such a key exists or there was nothing to yield |
| RangeScan.DescendingMissesTheTop | storage/ranged.go:59-63 | one live key, scanned downward from just above it: nothing is yielded |
| RangeScan.RangedKVIter.constructor | storage/ranged.go:54-65 | what remains after opening is the whole ascending or descending range |
| RangeScan.RangedKVIter.FixUp | storage/ranged.go:56-63 | a descending scan starts on the last live key <= start, unless the seek ran off the top |
| RangeScan.RangedKVIter.ValidWhileRemaining | storage/ranged.go:27-39 | the cursor is valid exactly while something remains, and shows the first of it |
| RangeScan.RangedKVIter.Next | storage/ranged.go:41-49 | one step of the merge in the scan direction, whatever the last move was, and none when the scan has ended; unless an ascending scan had been turned, it yields the rest |
| RangeScan.RangedKVIter.Prev | storage/ranged.go:20-25 | Prev steps against the scan direction through the filter |
| MemTable.PutFind | storage/sortedarray.go:81-107 | a write changes what its own key shows and nothing else |
| MemTable.SortedArray.Search | storage/sortedarray.go:50-52 | the search returns the insertion point and whether the key is there |
| MemTable.SortedArray.State | storage/sortedarray.go:63-72 | absent, present with its value, or tombstone, as the run says |
| MemTable.SortedArray.Set | storage/sortedarray.go:81-93 | inserts or overwrites at the rank; reports whether a live key was overwritten |
| MemTable.SortedArray.Del | storage/sortedarray.go:97-107 | leaves a tombstone in the key's place, also where the key was absent |
| MemTable.SortedArray.Seek | storage/sortedarray.go:115-118 | a cursor at the first key >= the argument |
| MemTable.SortedArray.Clear | storage/sortedarray.go:30-34 | the run is empty |
| LogFile.DecodeEncode | storage/entry.go:31-79 | a record read back from the front of any log is the record written, and exactly its bytes are consumed |
| LogFile.RoundTripExactlyWhenSmall | storage/entry.go:55-66 | that holds exactly when the two lengths sum below 2^32 |
| LogFile.FrameIsRead | storage/entry.go:51-79 | of a complete record: refused exactly when the stored checksum is not that of all that follows it, live records and tombstones alike; a panic exactly when the lengths overflow 32 bits; otherwise key, value and flag |
| LogFile.EndsExactlyWhen | storage/entry.go:51-79 | the log ends exactly where no complete record starts, cleanly exactly at the last byte |
| LogFile.WholeExactlyWhen | storage/entry.go:51-79 | a record is read exactly when the log starts with its checksum, lengths, flag, key and value, and the lengths sum below 2^32 |
| LittleEndian.LowBytes | storage/entry.go:31-43 | numbers are written with the least significant byte first |
| LogFile.TornRecordIsRefused | storage/entry.go:51-79 | a proper prefix of a record is never read as a record, nor is one that reaches behind the header with more bytes that do not complete it |
| LogFile.ReplayOfPrefix | storage/log.go:61-71 | replaying any byte prefix of a log yields exactly its longest run of whole records |
| LogFile.ReplayThenRest | storage/kv.go:61-76 | whole records are replayed in order whatever follows them |
| LogFile.AppendToCleanLog | storage/log.go:37-42 | appending to a clean log adds exactly one record to the replay and keeps it clean |
| LogFile.TornAppendToCleanLog | storage/log.go:37-42 | a torn append to a clean log loses nothing that was there |
| LogFile.EveryLogSplits | storage/log.go:61-71 | every log is whole records and, exactly when reading it does not panic, torn bytes behind them |
| LogFile.ReplayBehind | storage/log.go:61-71 | behind whole records, a log replays those and then what the bytes after them replay, also with a write among these |
| LogFile.WriteIsLostExactlyWhen | storage/log.go:37-71 | a write at any offset into torn bytes adds nothing to the replay exactly when the bytes are still torn with it |
| LogFile.BadSumIsForever | storage/log.go:61-71 | behind a record with a bad checksum writes never change what is read there |
| LogFile.AppendsBehindTearAreLost | storage/log.go:61-71 | one family of such writes: records behind a record cut after its header, all together shorter than what is missing of it |
| LogFile.ApplyAllFind | storage/kv.go:61-76 | replaying into the MemTable is last-writer-wins per key over what was there |
| SSTable.BuildStores | storage/sstable.go:193-229 | over any old bytes, every slot points at its record and no write overlaps another |
| SSTable.BuildFileHolds | storage/sstable.go:81-104 | the built file opens with the true count; index(i) reads the i-th record for every i exactly when the lengths of every record sum below 2^32 |
| SSTable.HoldsUnique | storage/sstable.go:81-104 | a file holds at most one run |
| SSTable.IndexedExactlyWhen | storage/sstable.go:81-104 | a record is read exactly when its slot holds an offset behind the slots, not negative in 64 bits, where the bytes of that record stand |
| SSTable.WriteRecords | storage/sstable.go:193-229 | the writing loop at moving offsets produces that file |
| SSTable.CreateFromSorted | storage/sstable.go:193-229 | whatever the name held before, the created file is that file; with room for the offsets it holds exactly the source run when, and only when, the records fit the format |
| SSTable.Search | storage/sstable.go:108-126 | binary search on disk returns the true lower bound and whether the key is there |
| MetaSlots.Target | storage/meta.go:142-152 | the slot written is never the live one |
| MetaSlots.NewestWins | storage/meta.go:109-152 | Get returns the newest readable record, an empty one when there is none; a version is accepted exactly when it exceeds every readable one |
| MetaSlots.SetThenGet | storage/meta.go:131-152 | a completed Set is what Get returns |
| MetaSlots.TornSetKeepsOne | storage/meta.go:27-51 | after a torn Set, Get returns the record before or the one in flight |
| MetaSlots.SlotsAreAtomic | storage/meta.go:113-152 | over every run of Sets, each possibly torn and reopened, the two slots are one atomic register whose version never goes back |
| Disk.TornAppendIsPossible | storage/log.go:37-42 | any proper prefix of a record can be left behind by a crash in its append |
| Disk.EveryTearIsCovered | storage/meta.go:53-80 | whatever an interrupted write may leave is covered: any bytes in a new file, an unreadable slot beside the other one, any bytes in the log that do not read as a record |
| Engine.ReopenBacked | storage/kv.go:41-95 | a directory whose named files are intact opens as exactly those levels, with the MemTable that the log rebuilds |
| Engine.EstimateSuffices | storage/kv.go:274-281 | a merge never yields more records than estimated, filtered or not |
| Engine.PutView | storage/kv.go:156-193 | a MemTable write or tombstone changes the visible map at its key only |
| Engine.FlushedTwiceIsHarmless | storage/kv.go:230-251 | replaying a log that holds exactly the flushed MemTable changes nothing; what any other log does is `TornTail.FlushCrashIsAtomicExactlyWhen` |
| Engine.MergedShape | storage/kv.go:270-303 | a merge keeps levels sorted and all but the last non-empty |
| Engine.MergeKeepsView | storage/kv.go:270-293 | merging any adjacent pair leaves every visible value unchanged |
| Engine.CallsImplementTheMap | storage/kv.go:145-303 | every completed call changes the map as the plain map is changed: three write modes, delete, flush, merge |
| Engine.ModesMean | storage/kv.go:156-193 | upsert always writes, insert only an absent key, update only a live one; delete removes; in every other case the map stays as it was |
| Engine.RefusedTouchesNothing | storage/kv.go:156-193 | a refused call changes nothing, in memory or on disk; any other issues one append |
| Engine.MergeWrites | storage/kv.go:270-281 | a merge writes, for every key, the newer of the two records, and no tombstone exactly when the pair is the last |
| CrashSafety.CallsKeepInv | storage/kv.go:156-303 | every completed call keeps the invariant; a write that fits the record format keeps a clean tail clean, a flush makes any tail clean, a merge leaves it |
| CrashSafety.CrashInLogged | storage/kv.go:156-193 | whatever the log tail: a crash in an append leaves the old levels and the log with none, part or all of the record, and opens as what that log replays |
| CrashSafety.CrashInFlush | storage/kv.go:230-251 | whatever the log tail: a crash at any point of a flush opens with the old levels until the metadata is written and with the new ones then, under the replayed log until that is emptied |
| CrashSafety.CrashInMerge | storage/kv.go:270-303 | whatever the log tail: a crash at any point of a merge opens with the old levels or the merged ones under the same log |
| CrashSafety.EmptyDirectoryOpens | storage/kv.go:41-79 | a fresh directory opens as the empty map with a clean log |
| CrashSafety.FilesAreNeverClobbered | storage/kv.go:230-303 | no compaction writes over a file that the metadata names, and none removes one still named |
| MapOverLog.StepIsExact | storage/kv.go:41-303 | every call, every crash in one and every power loss, in any state of the log, is exactly one step of a machine with a live map, a disk map and log bytes |
| MapOverLog.EveryCrashIsAnEvent | storage/kv.go:156-303 | no moment is left out: a power cut before, in or after every disk operation of every call is an event, as long as opening afterwards does not panic |
| MapOverLog.EngineIsAMapOverALog | storage/kv.go:41-303 | over every run of calls, crashes and power losses the engine is that machine; nothing is asked of the log tail |
| MapOverLog.PlayedIsSameExactlyWhen | storage/kv.go:61-76 | replaying records over a map changes nothing exactly when the map shows the last record of every key |
| DurableMap.CleanAppend | storage/log.go:37-42 | an append behind a clean tail is on disk, and the tail stays clean |
| DurableMap.CrashIsAtomic | storage/kv.go:41-303 | when memory and disk agree and, for a write, the tail is clean, a crash in any step of any call recovers the map before or after it; whatever the state, they agree after opening |
| DurableMap.EngineIsAtomicDurableMap | storage/kv.go:41-303 | over every run whose writes are made behind a clean tail the store is an atomic durable map |
| DurableMap.TidyRunsAreCareful | storage/kv.go:41-303 | every run in which no append is torn, whatever else is cut short, writes behind a clean tail throughout |
| TornTail.OpenedAt | storage/kv.go:61-76 | after every opening the log is whole records and torn bytes, and the next append goes where reading the torn bytes stopped |
| TornTail.FlushedWritesLast | storage/kv.go:230-251 | writes behind any tail whatever, once flushed, survive every later crash in a compaction and every power loss |
| TornTail.WriteIsLostExactlyWhen | storage/kv.go:61-76 | a write behind torn bytes is acknowledged and visible; the log replays nothing new exactly when the bytes are still torn, and then reopening gives the map without the write |
| TornTail.ShortWriteIsLost | storage/kv.go:61-76 | so is every write shorter than what is missing of a record cut behind its header |
| TornTail.NothingLastsBehindABadSum | storage/kv.go:61-76 | behind a record with a bad checksum no call but a flush changes the disk map |
| TornTail.FlushCrashIsAtomicExactlyWhen | storage/kv.go:243-250 | a flush cut after its metadata write and before the log is empty is atomic exactly when every record the log replays to shows what the store shows for its key |
| TornTail.FlushBringsBackOldValues | storage/kv.go:243-250 | a run in which it is not: reopen on a torn tail, overwrite, write, flush, power loss; the old value is back beside the new one |
| Volume.MergeFits | storage/sstable.go:193-229 | a store with room for its records has room for any merge of them, and keeps it |
| Volume.FlushFits | storage/sstable.go:193-229 | and for a flush |
| Device.Log.Write | storage/log.go:37-42 | appends the encoded record at the current position |
| Device.Log.Read | storage/log.go:61-71 | reads one whole record and advances past it; an incomplete or corrupt one reads as end of log, with the position moved as far as bytes were consumed |
| Device.Log.Truncate | storage/log.go:46-54 | empties the log and rewinds |
| Device.MetaStore.Set | storage/meta.go:142-152 | refuses a version that is not newer, otherwise writes the other slot and is what Get then returns |
| Compaction.CompactionKeepsView | storage/kv.go:209-225 | any sequence of flushes and merges keeps the map |
| Compaction.MergeKeepsTiers | storage/kv.go:215-223 | a merge at position i keeps the size ratios above it |
| Compaction.SmallFactorMergesNothing | storage/kv.go:258-265 | with a growth factor of at most 1 a compaction merges nothing |
| Compaction.LevelCountIsLogarithmic | storage/kv.go:253-265 | with tiers of growth G > 1, G to the power (levels - 2) is at most the total number of records |
| KVStore.LivePairsExact | storage/kv.go:195-202 | a full scan lists exactly the live pairs, in key order |
| KVStore.SeekLandsOnLiveKeys | storage/kv.go:122-202 | a key is live exactly when seeking it lands on it, and then on the value Get returns |
| KVStore.KV.Open | storage/kv.go:41-79 | fails exactly when a file that the metadata names is missing or has no header; on every directory that a run of the engine leaves it succeeds, and the store is the state machine's reopened one, whatever was in memory before |
| KVStore.KV.ReplayLog | storage/kv.go:61-76 | the record-by-record loop rebuilds the MemTable and leaves the position behind what was read |
| KVStore.KV.OpenLevels | storage/kv.go:82-95 | main[j] is the file that entry j of the metadata names, opened; fails at one that is missing or has no header |
| KVStore.KV.Get | storage/kv.go:122-143 | returns the map's answer |
| KVStore.KV.SetEx | storage/kv.go:156-172 | takes the write step of the state machine in its mode, with its one disk operation; reports a write except for insert of a live key and update of an absent one |
| KVStore.KV.Del | storage/kv.go:180-193 | takes the delete step; reports whether the key was live |
| KVStore.KV.OpenCursors | storage/kv.go:112-118 | one cursor per level, newest first, each at its first key >= the argument |
| KVStore.KV.Seek | storage/kv.go:196-202 | a cursor over exactly the live pairs, at the first key >= the argument |
| KVStore.KV.Range | storage/ranged.go:54-65 | what the range cursor will yield is the closed interval of the live pairs in its direction |
| KVStore.KV.CompactLog | storage/kv.go:230-251 | takes the flush step: new file, metadata, reopen, clear, truncate, in that order |
| KVStore.KV.ReadMerged | storage/kv.go:274-281 | draining the merge of files i and i+1 gives their merge, without tombstones exactly when the pair is the last |
| KVStore.KV.CompactSSTable | storage/kv.go:270-303 | takes the merge step: new file, metadata, reopen, removal of the two old files |
| KVStore.KV.Compact | storage/kv.go:209-225 | terminates, keeps the map, flushes exactly at the threshold; makes exactly the merges that the level sizes call for, each the first at or below the one before; leaves every adjacent pair but the last in tiers |
| KeyCodec.PutBEOrder | table/cell.go:77-91 | big-endian codes compare as the numbers, then as what follows |
| KeyCodec.EncodeStrKey | table/cell.go:117-126 | the escaping loop appends the escaped string and its terminator |
| KeyCodec.EscapedOrder | table/cell.go:109-126 | escaped strings, 0x00 and 0x01 included, compare as the strings, then as what follows |
| KeyCodec.CellKeyOrder | table/cell.go:69-91 | the code of a cell is monotone and prefix-free, negative numbers included |
| KeyCodec.ColsOrder | table/schema.go:45-58 | byte order of concatenated column codes is tuple order, then the order of what follows |
| KeyCodec.ColsInjective | table/schema.go:51-58 | equal column codes mean equal tuples |
| KeyCodec.DecodeStrKey | table/cell.go:128-146 | the index loop decodes what its specification decodes, errors included |
| KeyCodec.DecodeEncodedCell | table/cell.go:94-107 | a cell's key code is read back, with the rest untouched |
| KeyCodec.DecodedExactlyWhen | table/cell.go:94-146 | a key cell is read exactly where its code stands: no other bytes are accepted |
| Rows.EncodeKey | table/schema.go:51-58 | the column loop produces the row key |
| Rows.SentinelBound | table/schema.go:60-74 | for any key prefix, empty to full, a row key is on the right side of the -infinity and +infinity bounds exactly as its columns compare, and never equals a bound |
| Rows.FullScanCovers | sql/planner.go:204-207 | every row key of the table lies in the full-scan interval |
| Rows.BetweenSharesPrefix | table/schema.go:60-74 | only keys with the table's prefix lie between two of its bounds |
| Rows.PrefixIsExclusive | sql/engine.go:40-41 | no key of another table, and no catalog key, has that prefix, for names without 0x00 |
| Rows.KeyIsInjective | table/schema.go:51-58 | two rows share a key exactly when their primary keys are equal |
| Rows.EncodeVal | table/schema.go:77-84 | the loop over non-key columns produces the row value |
| Rows.DecodeKey | table/schema.go:91-109 | fills the key cells in place; another table's key and a short one are told apart |
| Rows.DecodeVal | table/schema.go:112-125 | fills the other cells in place, or reports a short value |
| Rows.DecodeEncodedVal | table/cell.go:30-67 | a cell's value code is read back, with the rest untouched |
| Rows.DecodedValExactlyWhen | table/cell.go:43-67 | likewise a value cell; a string, when the bytes behind its length, counted in 32 bits, are enough |
| Rows.OutOfRangeExactlyWhen | table/schema.go:91-95 | a key is another table's exactly when it lacks this table's prefix |
| Rows.RowReadsBack | table/schema.go:77-125 | decoding an encoded pair gives the row |
| Expressions.ColIndex | table/schema.go:20-27 | the first column of that name, or -1 when there is none |
| Expressions.HoldsIsEval | sql/eval.go:15-146 | on conditions without tuples the reference meaning is the interpreter's |
| Expressions.WrapIsCongruent | sql/eval.go:97-120 | wrapping gives the one 64-bit number congruent to the exact one |
| Expressions.QuotientTruncates | sql/eval.go:97-120 | division truncates toward zero for every combination of signs |
| EvalLaws.LeafLaws | sql/eval.go:15-25 | a constant is itself, a column the cell of the first column of its name, an error exactly when there is none |
| EvalLaws.ErrorLaws | sql/eval.go:26-43 | a failing left operand fails the whole, a deciding one decides before a failing right one, otherwise a failing right one fails it |
| EvalLaws.ArithmeticLaws | sql/eval.go:97-120 | sum, difference and product modulo 2^64, the truncated quotient, an error for a zero divisor |
| EvalLaws.ComparisonLaws | sql/eval.go:122-143 | the six comparisons are those of integers and of byte strings |
| EvalLaws.TypeErrorLaws | sql/eval.go:80-102 | arithmetic takes integers only, comparison two values of one type |
| EvalLaws.NegationLaw | sql/eval.go:52-56 | unary minus is the negative modulo 2^64, of integers only |
| EvalLaws.LogicLaws | sql/eval.go:145-148 | AND and OR of the truth of their operands, as 1 or 0 |
| EvalLaws.NotLaw | sql/eval.go:50-51 | NOT is true exactly of a zero or an empty string |
| EvalLaws.MetWhenTrue | sql/eval.go:69-76 | a condition is met when its value is a number other than zero or a string other than the empty one |
| EvalLaws.MisplacedOperators | sql/eval.go:44-62 | a unary operator on a failing operand, and an operator in the wrong place, fail |
| Planner.ExtractPKeyLoop | sql/planner.go:148-169 | the nested loops find the first equality for every key column, or refuse |
| Planner.DestructureTuple | sql/planner.go:97-112 | the loop pairs columns with constants position by position, or refuses |
| Acceptance.PointAcceptedExactlyWhen | sql/planner.go:148-169 | a point lookup is planned exactly for an AND tree of column = constant, as many as the key columns and naming them all |
| Acceptance.BoundAcceptedExactlyWhen | sql/planner.go:75-144 | a bound is made exactly of <, <=, > or >= between leading key columns and as many constants |
| Acceptance.AcceptedExactlyWhen | sql/planner.go:173-218 | a condition is accepted exactly when it is such a point, one such comparison, or two joined by AND |
| Planner.BoundMeansComparison | sql/planner.go:129-144 | an accepted comparison holds of a row exactly when its key prefix compares so with the bound |
| Planner.PointMeansEqualities | sql/planner.go:148-169 | as many equalities as key columns, each named, in any order: together they say what the key is |
| Planner.MatchAllEqMeans | sql/match.go:13-38 | the pairs collected from a conjunction of equalities say what it says |
| Planner.IntervalIsPrefixOrder | sql/planner.go:16-39 | the byte interval selects exactly the rows whose prefixes satisfy both comparisons |
| Planner.PlanServes | sql/planner.go:173-218 | for every accepted, well-typed condition the interval selects exactly the rows of the condition it serves |
| Planner.PlanIsExact | sql/planner.go:204-218 | which is the whole condition with at most one bound per side |
| Planner.PlanErrsExactlyOn | sql/planner.go:176-189 | otherwise it is wrong exactly on rows that meet the right bound and fail the left one |
| PlannerLimits.NextIsLeastAbove | sql/planner.go:16-25 | being above a key prefix is being at or above its successor, over integers with their last one and strings |
| PlannerLimits.RedundantExactlyWhen | sql/planner.go:180-184 | of two bounds on one side, any operators and lengths, the right one implies the left one in every row exactly when the least key it admits satisfies the left one |
| PlannerLimits.WellTypedIsRightExactlyWhen | sql/planner.go:173-218 | an accepted, well-typed condition is planned right for every row exactly when it has at most one bound per side or its left one is redundant |
| PlannerLimits.EmptyExactlyWhen | sql/planner.go:16-39 | a range holds no row of any table exactly when its upper bound fails from the least key on that its lower bound admits |
| PlannerLimits.PlanIsRightExactlyWhen | sql/planner.go:119-218 | over every accepted condition, ill-typed ones included: whether the plan is right for every row, decided from the condition alone |
| PlannerLimits.SameSideIsExactWhen | sql/planner.go:180-184 | the special case of one operator over the same columns: redundant exactly when the left constants do not lie beyond the right ones |
| PlannerLimits.ForgottenBound | sql/planner.go:180-184 | `a > 5 AND a > 1` selects a row with a = 3 |
| PlannerLimits.MistypedBound | sql/planner.go:119-126 | `a >= "x"` selects a row with a = 0, although it holds of no row |
| Retyping.PlanUnchanged | sql/planner.go:119-126 | the plan does not depend on the types that constants came with |
| Retyping.PlanServesRetyped | sql/planner.go:119-126 | with no assumption on types, the rows selected are those of the retyped condition |
| Retyping.IllTypedHoldsNowhere | sql/eval.go:80-95 | an accepted condition with a wrongly typed constant holds of no row |
| Retyping.RangeIsWrongExactlyOn | sql/planner.go:119-218 | for every accepted condition and every row, exactly when plan and interpreter disagree |
| Selection.SelectExact | table/rowiter.go:47-65 | a range yields exactly the stored rows whose keys lie in it, each once, in primary-key order |
| Selection.KeyOrderIsTupleOrder | table/schema.go:51-58 | key order of rows is tuple order of their primary keys |
| Selection.QueryIsExact | sql/planner.go:204-227 | for every accepted condition that is planned right, the rows collected are exactly the table's rows on which it holds, each once, in primary-key order |
| Selection.MatchedRows | sql/engine.go:186-196 | whatever the condition, the rows collected are rows of the table, no two with one key |
| Selection.NothingIsCorrupt | table/rowiter.go:47-65 | no pair that a scan of a stored table visits fails to decode |
| Updates.ValidateTargets | sql/engine.go:226-238 | succeeds exactly when every SET column exists outside the key; otherwise reports the first that does not |
| Updates.TargetExactlyWhen | sql/engine.go:228-238 | a SET column is refused for not existing, or for being a key column, and otherwise is the column of that name |
| Updates.NewValues | sql/engine.go:245-256 | every right-hand side evaluated in the old row and of its column's type, or the first that is refused |
| Updates.AssignableExactlyWhen | sql/engine.go:245-256 | a row is updated exactly when every right-hand side has a value of its column's type in it |
| Updates.RefusalMeans | sql/engine.go:245-256 | it is refused for its first right-hand side that fails, with that error, or has the wrong type |
| Updates.AssignRow | sql/engine.go:245-259 | evaluating first and then assigning in a loop is simultaneous assignment, the last of two to one column winning |
| Updates.UpdatedExactlyWhen | sql/engine.go:245-259 | the updated row holds in each column the value of its last right-hand side in the old row, or what it held, and is the only such row |
| Updates.UpdateKeepsKey | sql/engine.go:232-235 | an update changes neither the types nor the key cells of a row |
| Updates.UpdateKeepsRowKey | sql/engine.go:232-235 | so the rewritten row is stored under the same key |
| Updates.UpdateIsSimultaneous | sql/engine.go:221-265 | every row of the new table was one of the old and the other way round, under the same key: a selected one with each SET column at the value of its last right-hand side in the old row, any other unchanged; other keys are untouched |
| Updates.DeleteIsExact | sql/engine.go:267-287 | DELETE leaves exactly the rows that the condition does not select |
| Updates.RetypedRow | sql/engine.go:206-210 | the inserted row has the values given, in the types of the columns |
| Updates.InsertIsExact | sql/engine.go:198-219 | INSERT adds exactly one row |
| Updates.KeyTakenExactlyWhen | sql/engine.go:211-217 | an insert is a duplicate exactly when a stored row has the same primary key |
| Updates.OtherTablesUntouched | table/schema.go:51-74 | what happens under one table's prefix leaves the rows and the good order of every other table alone |
| Updates.CatalogWriteTouchesNoTable | sql/engine.go:40-41 | so does a write of a catalog entry |
| Updates.InsertStaysInTable | sql/engine.go:198-219 | INSERT writes under its own table's prefix only |
| Updates.UpdateStaysInTable | sql/engine.go:221-265 | UPDATE likewise |
| Updates.DeleteStaysInTable | sql/engine.go:267-287 | and DELETE |
| Execution.RowIterator.Decode | table/rowiter.go:47-65 | the iterator shows the first row still to come; it ends with the range, the table, or a pair that does not decode |
| Execution.RowIterator.Next | table/rowiter.go:32-37 | Next drops the first pair of the range, if any, and shows the first row of what is left, an ended range staying ended; ok reports whether that pair decodes |
| Execution.NewRowIterator | table/rowiter.go:21-27 | fails exactly when the first pair of the range does not decode |
| Execution.ExecCond | sql/planner.go:221-227 | plans and opens the scan of exactly that range; reports an unsupported condition exactly for those of neither accepted shape |
| Execution.MatchingRows | sql/engine.go:186-196 | collects all matching rows, which for an exactly planned condition are its answer |
| Execution.CheckedColsExist | sql/engine.go:117-133 | a checked output expression fails in no row for want of a column |
| Execution.CheckedExactlyWhen | sql/engine.go:117-133 | an output expression passes exactly when every column that it mentions outside tuples exists |
| Execution.ExecSelect | sql/engine.go:156-182 | the output expressions evaluated in every matching row, in order; each error with its cause |
| Execution.ExecInsert | sql/engine.go:198-219 | refused for a wrong number of values or a taken key, otherwise exactly one pair is added, of whatever size |
| Execution.ExecUpdate | sql/engine.go:221-265 | rewrites exactly the matching rows; a refused right-hand side stops it, and exactly the rows before are rewritten |
| Execution.ExecDelete | sql/engine.go:267-287 | removes and counts exactly the matching rows |
| Parsing.Parser.SkipSpaces | sql/parser.go:37-41 | advances past leading spaces only |
| Parsing.Parser.TryName | sql/parser.go:44-55 | consumes exactly one identifier, or only spaces |
| Parsing.Parser.TryKeyword | sql/parser.go:60-76 | all keywords in a row, whatever their case, none a prefix of a longer name; otherwise the position is as before |
| Parsing.Parser.TryPunctuation | sql/parser.go:79-87 | consumes exactly the punctuation, or only spaces |
| Parsing.Parser.ParseInt | sql/parse_value.go:28-49 | behind spaces, reads an optionally signed 64-bit integer; on any error only the spaces are consumed |
| Parsing.Parser.ParseString | sql/parse_value.go:54-93 | behind spaces, reads a quoted string with its three escapes; at anything else, and on any error, only the spaces are consumed |
| Parsing.Parser.ParseBinop | sql/expr.go:76-98 | the loop builds what the grammar level says and consumes exactly its text |
| Parsing.Parser.ParseLevel | sql/expr.go:59-147 | every rung terminates on every input and reads what the grammar says, the position never moving back |
| Parsing.Parser.ParseAtom | sql/expr.go:151-165 | a parenthesis, a name or a literal, as the grammar says |
| Parsing.Parser.ParseTuple | sql/planner.go:49-72 | fails where no parenthesis opens; otherwise one member is grouping, more are a tuple |
| Parsing.Parser.ParseExpr | sql/expr.go:59-66 | parses every printed tree back to that tree and consumes exactly its text |
| Printer.ReadsBack | sql/expr.go:53-165 | printed at any level and followed by something that level cannot continue with, a tree is parsed back and exactly its text consumed |
| Printer.BecomesLeft | sql/expr.go:76-98 | left associativity: with an operator of the same level ahead, the printed tree becomes the left operand |
| Printer.OpReads | sql/expr.go:100-135 | every printed operator is read back as itself, `<=` and `<>` before `<` |
| Printer.OpStops | sql/expr.go:76-98 | an operator ends any operand of a tighter level |
| Printer.NameIsNotKeyword | sql/parser.go:60-76 | a name other than NOT is never taken for NOT, also where it begins or continues with it |
| Printer.ConstReadsBack | sql/parse_value.go:12-93 | non-negative integers and arbitrary byte strings are read back as literals |
| Printer.UnquoteQuoted | sql/parse_value.go:51-93 | quoted with either quote and escaped, any byte string is read back |
| Printer.SignedNumberReadsBack | sql/parse_value.go:28-49 | a signed number is read back exactly when it fits 64 bits |
| Printer.KeywordReads | sql/parser.go:57-76 | a keyword is read in whatever case it is written, exactly where no longer name begins with it |
| Printer.BangEqualReads | sql/expr.go:120-127 | `!=` reads as the same operator as `<>` |
| Printer.ListReadsBack | sql/planner.go:49-72 | a printed list of members is read back member by member |
| Printer.ParsePrint | sql/expr.go:59-165 | parsing undoes printing for every printable tree |
| Printer.PrintIsInjective | sql/expr.go:59-165 | no two trees print alike: no parenthesis that matters is left out |
| Parentheses.NotIsMisread | sql/expr.go:76-165 | where no NOT is expected, one is read as a name, and the tree read is none that prints |
| Parentheses.BareFalls | sql/expr.go:59-165 | read at a tighter level than its own, the bare text of a tree yields a lighter tree, one that does not print, or none |
| Parentheses.ParenthesesAreNeeded | sql/expr.go:59-165 | wherever the printer encloses a tree, its bare text is not read back as that tree, whatever follows |
| Precedence.TwoOperators | sql/expr.go:59-147 | of two operators in a row the stronger takes the operand between them, of equally strong ones the left: OR, AND, comparisons, sums, products |
| Precedence.PrefixThenInfix | sql/expr.go:59-147 | NOT reaches over comparisons and arithmetic but not over AND and OR, unary minus over nothing |
| Precedence.SignReads | sql/expr.go:100-135 | signs need no blanks around them; `<` and `>` only must not run on into a longer sign |
| Precedence.FoldsExactlyWhen | sql/parser.go:60-76 | a keyword may be written in either case of each letter, and in no other way |
| Precedence.EscapesExactlyWhen | sql/parse_value.go:64-80 | in a string a backslash must stand before a quote of either kind or a backslash |
| Precedence.FirstDigit | sql/parse_value.go:28-49 | digits are decimal, the first one the most significant |
| Tokens.NameBytes | sql/parser.go:20-29 | the bytes of names and of white space, written out |

## Left out

- File I/O, fsync, directory sync, open handles and I/O error returns (storage/fsync.go and every os.File call): a disk operation finishes, or a crash leaves what `Disk.Possible` allows. A completed removal, truncation or append is taken to be on disk.
- The writes that make up one SSTable file are one disk operation, and a crash in it leaves arbitrary bytes under the new name; likewise one slot write leaves the old record, an unreadable one or the new one.
- The value of CRC-32 (storage/entry.go:42, storage/meta.go:27-51): an unspecified function of the bytes. A slot whose checksum fails is a blank slot, and a torn log append is one whose bytes do not decode as a record.
- JSON of metadata and schemas, the catalog (GetSchema, CREATE TABLE) and the schema cache: the metadata record and the schema are values. SSTable file names are their version numbers.
- Versions and sizes wrap at 2^64 and 2^63 in the code; versions are unbounded here, and `Engine.Legal` and `Volume.Roomy` state that a file's offsets fit.
- The growth factor is a real number and ShouldMerge compares exactly; float32 and float64 rounding is not modelled.
- The merging iterator's level cursors over the MemTable read a snapshot of its run; changing the MemTable during a scan is not modelled. Slice aliasing and capacity reuse are not modelled either.
- KVStore.KV.ReadMerged: the merge is drained into a run before the file is written, where the code writes while it drains; the bytes are the same.
- SortedFileIter caches the record it loaded; the level cursor here reads it from the file each time.
- Rows.DecodeKey: cells of a type that is neither int64 nor string, which the code refuses with an error, cannot be written here.
- Column names and key columns are assumed distinct (`Rows.WellFormed`), which execCreateTable does not check; table names have no 0x00, which holds of parsed identifiers.
- Execution.ExecUpdate: the rewriting itself is stated for rows of any size, but the table counts as well stored afterwards (`Updates.IsUpdate`) only if the rewritten rows fit a log record, and `Updates.InsertIsExact` likewise, because storage/entry.go:31-43 writes a larger one without complaint and cannot read it back.
- KVStore.KV.Open: says nothing of a log whose replay panics (storage/entry.go:61-66, lengths whose 32-bit sum wraps); the runs of `MapOverLog.LegalRun` leave out opening such a log.
- Statement parsing, statement structs, result headers, error texts and the atEnd check (sql/parse_stmt.go, sql/stmt.go): statements are already parsed, and a parse error is the absence of a tree.
- Parsing.Parser.ParseExpr: the round trip leaves out negative literals and a column named NOT, which the grammar reads as a negation.
- The thin wrappers of table/db.go beyond insert, update and delete, and the row iterator's Prev, which no statement uses.

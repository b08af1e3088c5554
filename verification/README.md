# AtlasKV: a verified model

AtlasKV is a log-structured key-value engine: a write-ahead log of checksummed records,
a sorted memtable, immutable table files searched newest first, and an engine that
orders its steps so that crashes and lock-free reads are safe. This project models that
logic in Dafny and proves what it guarantees.

`dafny verify dfyconfig.toml` checks everything.

## What is proved

**Crashes.** The engine is a machine of atomic steps (`EngineMachine.dfy`): record
written, sync strategy applied, memtable insertion, table made visible, memtable
cleared, log truncated, the steps of `open`, and the two looks of every `get`. A crash may
fall between any two of them and keeps the tables plus any byte prefix of the log that
contains the synced part. What one crash leaves of the log is not synced thereby: a killed
process may be followed, in the middle of the recovery, by a power loss that shortens the
log again. Recovery is the real one, run on those bytes.

- If every append is synced before it returns (`EveryWrite`, or `EveryNEntries` with
  count 0 or 1), the engine refines a plain map over whole runs with crashes anywhere: each
  completed open has every inserted operation and possibly the one in flight. Without
  crashes the same holds for every strategy (`CrashSafety.SyncedRun`).
- For every strategy, no synced operation is lost, and at most `max(count, 1) - 1` inserted
  ones are not synced. Each key has its value after some prefix of history that contains
  all synced operations, however often the recovery is interrupted
  (`CrashSafety.CrashLossBounded`). If the recovery's own crashes leave the log alone, one
  prefix serves for all keys: outside the flush window (table visible, log not yet
  truncated) the reopened map is exactly that prefix, inside it each key has its latest
  value or its value at that prefix (`CrashSafety.CrashLossPrefix`).
- "Every crash recovers a prefix of history" is false in general. It holds if and only
  if at most one record can be unsynced when an append returns, or the memtable limit is 0,
  so that every write flushes (`CrashSafety.PrefixRecoveryIff`). If the recovery may itself
  be interrupted by a crash that shortens the log, it holds if and only if every append is
  synced, or the limit is 0 (`CrashSafety.PrefixReopenIff`). For every other configuration
  a run is constructed: `count` synced puts of the empty key, its deletion, a put of another
  key. In the first case a flush follows, and a crash at the synced length brings the
  deleted key back beside the later put. In the second the last put is just being appended,
  and a crash after the recovery's flush does the same.
- What interrupted recoveries leave is known exactly: tables replayed from ever shorter
  prefixes of the log, in front of the old ones (`EngineMachine.InterruptedRecovery`,
  `InterruptedOpen`). As long as the log is not shortened, interrupting the recovery any
  number of times changes nothing (`EngineMachine.RecoveryIdempotent`).

**Readers.** `get` looks into the memtable and into the table list at two different moments,
with no lock. Any number of gets in progress are part of the machine's state. Over whole
runs, with any interleaving, there is one sequential history of operations and gets in
which each get stands at a moment between its two looks and has the answer that the plain
map gives there; crashes and reopenings may be part of the run if every append is synced
(`Linearizability.Linearizable`, and `GetLinearizable` for a single get and any strategy).

**Bytes.** The log codec (bincode payload, framing, a bitwise CRC-32 as in section 8 of
RFC 1952), the table file format and the wire format are concrete, and each byte's place and
value is stated. The checksum is proved to be the remainder of the division of polynomials
that defines CRC-32 (`CrcPolynomial.HashIsRemainder`). Which bytes each decoder accepts is
stated as an equivalence (`WalEntries.DeserializeIff`, `SSTables.OpensIff`,
`WireCodec.DecodeCommandIff`). Recovery of any byte string, of any cut of a log and of a log
with any one byte damaged is characterised exactly; tables round-trip through build, open, point reads and iteration.

**The code's own shape.** Writer, reader, memtable, builder, table reader, iterator,
storage manager and engine are classes with loops as in the source. `Engine` carries the
run of the engine machine it has performed, and every method is proved to take the
machine's steps one by one in order. An engine between calls is a start from which the
theorems about runs hold (`Engines.Engine.BetweenCalls`). `Engines.Reopen` opens the files
that a crash leaves at any moment, also within a call, and `Engines.CrashAndReopen` those of
an engine between calls; the old run, the crash and the new run are then one run.

**Worker pool.** One accepting thread, a bounded channel, N workers, one shutdown token
per worker: exactly the clients accepted below the limit are handled, none lost or handled
twice, nothing deadlocks, shutdown ends.

## Files

| file | contents |
|---|---|
| `Bytes.dfy`, `Errors.dfy` | integers in bytes, key order, outcomes |
| `Crc32.dfy`, `CrcPolynomial.dfy`, `CrcCheckValue.dfy` | the checksum, its injectivity, what it computes |
| `WalEntry.dfy`, `WalRecovery.dfy`, `WalWriter.dfy` | the log |
| `Layers.dfy`, `MemTable.dfy` | layered maps, the memtable |
| `SSTable.dfy`, `FileNames.dfy`, `StorageManager.dfy`, `TableSizes.dfy` | table files and their set |
| `EngineMachine.dfy`, `CrashSafety.dfy`, `Linearizability.dfy`, `Engine.dfy` | the engine |
| `WireCodec.dfy`, `WorkerPool.dfy` | the server |

Where code and documents disagree the code is followed: recovery stops at the first
damaged record instead of skipping it (src/wal/recovery.rs:61-67 against design.md:154
and README.md:79), and `recover` never truncates the file (the engine re-creates it,
src/engine.rs:126).

## Model

| member | source | states |
|---|---|---|
| `Bytes.LittleEndianDigits` | src/wal/entry.rs:64-65 | Byte i of a `to_le_bytes` encoding is digit i of the number in base 256, for every width |
| `Bytes.BigEndianReverses` | src/protocol/codec.rs:51 | `to_be_bytes` is the little-endian encoding reversed |
| `Bytes.KeyLessIsPrecedes` | src/memtable/table.rs:107-112 | The key order is that of byte slices: at the first difference the smaller byte, or the end of the key, comes first |
| `Crc32.SingleByteChangeDetected` | src/wal/entry.rs:69 | Changing exactly one byte of a message always changes its CRC-32, because a byte step is injective in register and byte |
| `Crc32.UpdateConcat` | src/storage/sstable/builder.rs:100-110 | Feeding the hasher in chunks gives the checksum of the whole |
| `CrcPolynomial.HashIsRemainder` | src/wal/entry.rs:69 | A 32-bit number is the checksum iff its complement is the remainder of 1...1 * x^(8n) + message * x^32 modulo x^32+x^26+...+1 over GF(2), bits reflected: CRC-32 |
| `CrcPolynomial.UpdateCongruent` | src/storage/sstable/builder.rs:100-110 | From any register, feeding a chunk leaves register * x^(8n) + chunk * x^32 modulo the generator |
| `CrcPolynomial.RemainderUnique` | src/wal/entry.rs:69 | Congruent polynomials of degree below 32 are equal, so there is one such remainder |
| `CrcCheckValue.CheckValue` | src/wal/entry.rs:69 | The checksum of the digits 1 to 9 is 0xCBF43926 |
| `WalEntries.SerializeRoundTrip` | src/wal/entry.rs:54-144 | A serialized record deserializes to itself whatever bytes follow |
| `WalEntries.RecordLayout` | src/wal/entry.rs:54-79 | LSN, CRC-32 of all bytes but itself, length and payload lie at bytes 0, 8, 12 and 16 |
| `WalEntries.PutLayout` | src/wal/entry.rs:14-31 | Every field of a put's payload: LSN, tag 0, key and value with 8-byte lengths, timestamp |
| `WalEntries.DeleteLayout` | src/wal/entry.rs:14-31 | Every field of a delete's payload: LSN, tag 1, key with its length, timestamp |
| `WalEntries.DeserializeIff` | src/wal/entry.rs:87-144 | Bytes are accepted as an entry iff they start with its frame, whose payload is its encoding and possibly more; so unknown tags and differing LSNs are rejected |
| `WalEntries.SingleByteDamageDetected` | src/wal/entry.rs:87-128 | Any one changed byte outside the length field makes `deserialize` report corruption |
| `WalRecovery.WalReader.NextEntry` | src/wal/reader.rs:38-77 | Returns the record at the position and moves past it, `None` at end of file or on a torn tail, corruption otherwise, leaving the position |
| `WalRecovery.Recover` | src/wal/recovery.rs:37-82 | Terminates on any bytes with the scanned records, their number, the last one's LSN or 0, and whether and why reading stopped early |
| `WalRecovery.Verify` | src/wal/recovery.rs:87-125 | Reports the same four statistics |
| `WalRecovery.RecoverCut` | src/wal/recovery.rs:46-72 | For every log and byte cut, exactly the records wholly before the cut are recovered, and `was_truncated` holds iff the cut is not a record boundary |
| `WalRecovery.RecoverDamaged` | src/wal/recovery.rs:61-67 | One changed byte outside a length field recovers exactly the records before it, with one corruption and `was_truncated` |
| `WalRecovery.ScanReads` | src/wal/recovery.rs:37-82 | On arbitrary bytes the result decodes a prefix of the file and the next bytes are no record |
| `WalRecovery.ScanMaximal` | src/wal/recovery.rs:37-82 | No longer run of acceptable records starts the file |
| `WalRecovery.ScanPrefix` | src/wal/recovery.rs:46-72 | On arbitrary bytes, a shortened file shows a prefix of the records, never other ones |
| `WalWriters.WalWriter.Append` | src/wal/writer.rs:78-111 | Assigns the next LSN, writes the record, syncs when the strategy says so |
| `WalWriters.WalWriter.ForceSync` | src/wal/writer.rs:116-130 | Everything written is on disk, nothing uncommitted |
| `WalWriters.WalWriter.Truncate` | src/wal/writer.rs:145-164 | Back to an empty log with LSN 1 |
| `WalWriters.WriterRun` | src/wal/writer.rs:78-164 | After any run of append, sync and truncate the log is the records 1..m of the operations since the last truncation, next LSN m+1, synced plus uncommitted is m, and uncommitted is below max(count, 1) |
| `WalWriters.SyncSchedule` | src/wal/writer.rs:95-108 | Every append syncs, or exactly every `count`-th since the last sync by request or truncation |
| `WalWriters.RecoveredLsn` | src/wal/recovery.rs:46-72 | Whatever a crash leaves of a log, the last LSN recovery reports is the number of records it read |
| `WalWriters.CrashKeepsPrefix` | src/wal/writer.rs:96-107 | Whatever byte prefix with the synced part survives, recovery reads a record prefix missing at most the uncommitted ones |
| `Layers.SearchIsMerged` | src/storage/manager.rs:98-120 | Newest-to-oldest search stopping at a tombstone is lookup in the override merge of all layers |
| `Layers.ReplayIsApply` | src/engine.rs:106-115 | Overlaying a replayed log on older layers is applying the log to the map they show |
| `Layers.ApplyIdempotent` | src/engine.rs:117-126 | Replaying a log twice is replaying it once |
| `Layers.OneLost` | src/engine.rs:117-126 | Replaying all but the last operation over a map that has them all gives the map with or without that operation, and which of the two |
| `Layers.OverlaidRecent` | src/engine.rs:106-126 | After replays of any prefixes of one log, each key has its value after one of these prefixes |
| `Layers.OverlaidOne` | src/engine.rs:106-126 | If the prefixes differ by one operation at most, the map is that of the log with or without it |
| `MemTables.MemTable.Put` | src/memtable/table.rs:37-58 | Inserts the value; the counter grows by the lengths of key and value, less those of the entry replaced, and stays the sum over the table |
| `MemTables.MemTable.Delete` | src/memtable/table.rs:62-83 | Inserts a tombstone; the counter grows by the key's length, less the lengths replaced |
| `MemTables.MemTable.Clear` | src/memtable/table.rs:115-119 | Empty table, counter zero |
| `MemTables.TotalSizeUpdate` | src/memtable/table.rs:41-55 | Replacing one entry changes the total by the size difference, and the old entry never exceeds the total |
| `MemTables.SnapshotIsSorted` | src/memtable/table.rs:107-112 | The snapshot lists exactly the table's entries, in strictly increasing order of first differences of the keys |
| `SSTables.SSTableBuilder.WriteEntry` | src/storage/sstable/builder.rs:75-117 | Appends one entry to the data block and keeps index, offset, count, min and max key and running checksum in step |
| `SSTables.SSTableBuilder.KeyRange` | src/storage/sstable/builder.rs:79-84 | For entries added in key order the recorded keys are the smallest and the largest |
| `SSTables.SSTableBuilder.Finish` | src/storage/sstable/builder.rs:120-160 | The finished image is the table file of the added entries, with the footer checksum of the whole data block and the patched count |
| `SSTables.OpenTable` | src/storage/sstable/reader.rs:32-109 | Validates header and footer and loads the index, or fails with the same error kind |
| `SSTables.LoadIndex` | src/storage/sstable/reader.rs:75-98 | The index loop reads every complete entry and stops at a partial one |
| `SSTables.SSTableReader.Get` | src/storage/sstable/reader.rs:117-147 | The answer is a function of file, index and key, wherever the cursor was left |
| `SSTables.SSTableReader.MightContainKeys` | src/storage/sstable/reader.rs:155-171 | The range filter never hides a key of the table |
| `SSTables.SSTableReader.MinMaxKeys` | src/storage/sstable/reader.rs:154-162 | The least and the greatest key of the index, none for an empty one |
| `SSTables.SSTableReader.MightContainIff` | src/storage/sstable/reader.rs:164-171 | The range filter admits exactly the keys between two keys of the table |
| `SSTables.SSTableIterator.Next` | src/storage/sstable/iterator.rs:39-78 | Yields the entry at the current offset and moves past it, or stops at the index block |
| `SSTables.TableRoundTrip` | src/storage/sstable/reader.rs:32-109 | A built file opens; count, index offset and every key's offset are right, and a read at that offset finds the entry |
| `SSTables.BuiltTableGet` | src/storage/sstable/reader.rs:117-147 | Build, open, get: every added key gives its value or tombstone, every other key `KeyNotFound` |
| `SSTables.IterateTable` | src/storage/sstable/iterator.rs:39-78 | Iteration over a built table yields exactly its entries in order and stops at the index offset |
| `SSTables.TableLayout` | src/storage/sstable/builder.rs:47-160 | Magic, version, count, data block, index block, index offset, data checksum and padding, each at its place |
| `SSTables.EntryLayout` | src/storage/sstable/builder.rs:86-110 | An entry is key length, value length or four bytes 0xFF, key, value |
| `SSTables.IndexEntryLayout` | src/storage/sstable/builder.rs:122-130 | An index entry is key length, offset, key |
| `SSTables.OpensIff` | src/storage/sstable/reader.rs:32-74 | Exactly which files open, and the error of each kind of other file |
| `SSTables.HeaderDamage` | src/storage/sstable/reader.rs:40-54 | Any changed byte of magic or version is noticed on opening |
| `SSTables.TornEntry` | src/storage/sstable/iterator.rs:39-78 | An entry cut anywhere fails to iterate, and fails a point read unless it is a tombstone with a whole header |
| `SSTables.TornIndex` | src/storage/sstable/reader.rs:75-98 | An index block cut within an entry gives the entries before it |
| `SSTables.PastEnd` | src/storage/sstable/reader.rs:117-133 | Offsets that leave no room for an entry header fail; the iterator stops at its end offset |
| `SSTables.FlushedTable` | src/storage/manager.rs:138-149 | Flushing a memtable and reopening the file gives back the same map |
| `FileNames.NameRoundTrip` | src/storage/manager.rs:183-193 | Every u64 identifier is parsed back from its zero-padded name, also past six digits |
| `FileNames.NameInjective` | src/storage/manager.rs:183-185 | Two identifiers never share a file |
| `FileNames.NameLayout` | src/storage/manager.rs:183-185 | `sstable_`, zeros up to six places, the identifier in decimal, `.sst` |
| `FileNames.DecimalDigits` | src/storage/manager.rs:183-185 | Digit i from the end is the number divided by 10^i, modulo 10 |
| `FileNames.ParseIdIff` | src/storage/manager.rs:187-193 | A name counts as table n iff it is `sstable_`, perhaps a plus sign, digits of value n below 2^64, perhaps an extension |
| `StorageManagers.StorageManager.Get` | src/storage/manager.rs:98-120 | For any files, the newest reader that admits the key and has it answers, also by a read error; for flushed tables that is the layered search of their maps |
| `StorageManagers.StorageManager.Flush` | src/storage/manager.rs:126-156 | Writes a file that did not exist, leaves all others, puts the memtable's map in front; an empty memtable is an error |
| `StorageManagers.SortedIdsRestored` | src/storage/manager.rs:67-69 | Sorting the collected identifiers restores the strictly descending order |
| `StorageManagers.OpenStorage` | src/storage/manager.rs:49-87 | A directory written by flushes, with or without files of other names, reopens to the same tables in the same order, the next identifier one above the highest, 1 if there is none; opening succeeds iff every name that parses has a table file that parses |
| `TableSizes.SmallTableFits` | src/storage/sstable/builder.rs:86-114 | A table of loggable entries below 2^59 bytes fits every length and offset field of its file |
| `TableSizes.RecoveredTableFits` | src/engine.rs:119-123 | Replaying any log of up to 2^58 arbitrary bytes gives a table that can be flushed |
| `TableSizes.DistinctReplaySize` | src/memtable/table.rs:37-83 | After operations on distinct keys the counter is the sum of all key and value lengths |
| `TableSizes.RoundTripIff` | src/wal/entry.rs:54-79 | A record is read back iff its payload fits the 4-byte length field |
| `EngineMachine.ReachableInv` | src/engine.rs:194-292 | In every state any run with crashes can reach, log bytes, memtable, tables and history agree |
| `EngineMachine.ServingView` | src/engine.rs:174-185 | In every phase of every write and flush, clients see the plain map after all inserted operations |
| `EngineMachine.CrashOutsideWindow` | src/engine.rs:200-213 | A crash recovers a prefix of history that has every synced operation, so it misses at most the records unsynced at that moment |
| `EngineMachine.CrashInWindow` | src/engine.rs:276-288 | A crash in the flush window gives each key its value at the replayed prefix if that touches it, else its value at the flush; the prefix has every synced operation |
| `EngineMachine.RecoveryIdempotent` | src/engine.rs:92-127 | However often recovery is interrupted by crashes that leave the log as it was, synced or not, the completed open serves what one uninterrupted open would |
| `EngineMachine.InterruptedRecovery` | src/engine.rs:119-126 | Interrupted recoveries only add tables in front of the old ones, each the replay of a prefix of the log, newer ones of shorter prefixes, none shorter than the synced part; copies of one table if the log is not shortened |
| `EngineMachine.InterruptedOpen` | src/engine.rs:92-127 | Exactly what any interrupted open serves: the tables' map overlaid with those replays |
| `EngineMachine.RecoveryRecent` | src/engine.rs:92-127 | Also if crashes shorten the log between attempts, each key has its value after a prefix of the log that has all synced operations |
| `EngineMachine.RecoveryOneLost` | src/engine.rs:92-127 | With at most one operation unsynced, the map is that of the log with or without it |
| `EngineMachine.UninterruptedOpen` | src/engine.rs:92-127 | From every disk an open completes and serves the log applied to the tables |
| `EngineMachine.ShortenedOpen` | src/engine.rs:119-126 | A crash after the recovery flush may leave the synced part of the log replayed over all of it |
| `CrashSafety.NonCrashStep` | src/engine.rs:194-313 | Only the memtable insertion changes the visible map, by exactly its operation |
| `CrashSafety.SyncedCrash` | src/wal/writer.rs:96-107 | With every append synced, a crash leaves a disk that stands for the visible map, only the operation in flight being undecided |
| `CrashSafety.SyncedRun` | src/engine.rs:74-292 | From any settled start, at every serving moment of every run with crashes, the map is that of all inserted operations in order, plus at most the one in flight per completed open; without crashes, for every strategy |
| `CrashSafety.CrashLossBounded` | src/engine.rs:270-292 | Any strategy, any run from a sound start, any crash, any recovery: each key has its value after a prefix of history with all synced operations; keys untouched since then have their latest value |
| `CrashSafety.CrashLossPrefix` | src/engine.rs:270-292 | If recovery's own crashes leave the log alone, one such prefix serves for all keys, exactly outside the flush window |
| `CrashSafety.SafeCrash` | src/engine.rs:276-288 | With at most one record unsynced after each append, or limit 0, a crash of any sound state recovers a prefix of history |
| `CrashSafety.SafeReopen` | src/engine.rs:92-127 | With every append synced, or limit 0, so does every completed open, however interrupted |
| `CrashSafety.PrefixRecoveryIff` | src/engine.rs:276-288 | Every crash of every run leaves a disk with a prefix of history iff at most one record can be unsynced after an append or every write flushes |
| `CrashSafety.PrefixReopenIff` | src/engine.rs:92-127 | Every completed open after every crash, with recoveries interrupted in any way, serves a prefix of history iff every append is synced or every write flushes |
| `CrashSafety.BadCrash` | src/engine.rs:276-288 | For every other configuration, a run and a crash that bring a deleted key back beside a later put |
| `CrashSafety.BadReopen` | src/engine.rs:119-126 | For every configuration that leaves an append unsynced, a run and two crashes that do the same |
| `Linearizability.GetLinearizable` | src/engine.rs:174-185 | In every run with any number of readers, a get returns the key's value in the plain map, after all operations inserted by then, at some moment between its two looks |
| `Linearizability.Linearizable` | src/engine.rs:174-292 | For whole runs one sequential history has every get once, between its two looks, and every operation in order; replayed on the plain map, every get has its answer |
| `Linearizability.HistoryGets` | src/engine.rs:174-185 | Up to each moment that history has exactly the gets assigned to moments so far |
| `Linearizability.QuietRead` | src/engine.rs:276-280 | A read that overlaps no insertion returns the latest value, even across a whole flush |
| `Linearizability.NoInterference` | src/engine.rs:174-185 | Gets in progress neither hold up nor change a step of the writer, and at every moment of serving any get can begin or return |
| `Linearizability.ManyReaders` | src/engine.rs:174-185 | Any number of gets can be in progress at once |
| `Engines.Engine.Get` | src/engine.rs:174-185 | Memtable first, then tables: lookup in the merged map, as the machine's two looks |
| `Engines.Engine.Put` | src/engine.rs:194-221 | The map gains the pair; afterwards the memtable is empty or below its limit; exactly the machine's steps were taken, with a flush iff the limit was reached |
| `Engines.Engine.Delete` | src/engine.rs:230-256 | The map loses the key; same invariant and steps |
| `Engines.Engine.Flush` | src/engine.rs:261-267 | The map is unchanged, memtable empty, log truncated if there was anything to flush |
| `Engines.Engine.FlushInternal` | src/engine.rs:270-292 | Table, then memtable, then log, each recorded as its own step |
| `Engines.Engine.Close` | src/engine.rs:297-313 | Flushes if there is anything, then syncs; memtable empty, log synced, and the disk alone reopens to the whole map |
| `Engines.Engine.Durable` | src/wal/writer.rs:97-100 | With every append synced, a crash between calls reopens to the map clients saw |
| `Engines.Engine.ViewIsHistory` | src/engine.rs:174-253 | What clients see is the plain map after all operations since opening |
| `Engines.Engine.BetweenCalls` | src/engine.rs:60-140 | An engine between calls is a start from which the theorems about runs hold, with its map |
| `Engines.RecoverInto` | src/engine.rs:92-123 | Recover, replay, flush, clear, in this order, as machine steps |
| `Engines.OpenEngine` | src/engine.rs:74-140 | Any log over any directory of tables, other files aside, opens to the log applied to what the tables show, with empty memtable and log |
| `Engines.Reopen` | src/engine.rs:74-140 | Opening the files a crash leaves at any moment of any run, also within a call: the old map or that plus the operation in flight if appends are synced, else a loss of unsynced operations only |
| `Engines.CrashAndReopen` | src/engine.rs:74-140 | The same between calls: the same map, or a prefix of history missing at most the uncommitted operations; old run, crash and new run are one run |
| `WireCodec.CommandRoundTrip` | src/protocol/codec.rs:44-126 | A command is read back exactly when its payload is within the limit, and rejected above it |
| `WireCodec.CommandLayout` | src/protocol/codec.rs:44-72 | Type byte 1 to 4, big-endian length, then key length, key and value, each at its place |
| `WireCodec.DecodeCommandIff` | src/protocol/codec.rs:83-172 | Exactly which bytes are accepted as a command: its frame of at most 16 MiB, with bytes behind the key ignored for GET and DELETE |
| `WireCodec.CommandStreamRoundTrip` | src/protocol/codec.rs:287-315 | A stream of encoded commands reads back as the same commands with nothing left |
| `WireCodec.ReadCommand` | src/protocol/codec.rs:287-315 | Consumes exactly the frame at the front and decodes it, with the right error otherwise |
| `WireCodec.ReadResponse` | src/protocol/codec.rs:326-354 | The same for responses |
| `WireCodec.AcceptedFrameCanonical` | src/protocol/codec.rs:83-205 | An accepted frame re-encodes to itself iff it is a PUT, a PING, or its key fills the payload |
| `WireCodec.ResponseRoundTrip` | src/protocol/codec.rs:214-278 | Responses round-trip, an empty payload becoming none, and are rejected above the payload limit |
| `WireCodec.ResponseLayout` | src/protocol/codec.rs:214-224 | Status byte 0 to 2, big-endian length, payload |
| `WireCodec.DecodeResponseIff` | src/protocol/codec.rs:227-278 | Exactly which bytes are accepted as a response |
| `WireCodec.TornFrame` | src/protocol/codec.rs:287-315 | A frame cut short is an I/O error, or a protocol error if its header announces more than the limit |
| `WireCodec.AcceptedResponseCanonical` | src/protocol/codec.rs:227-278 | An accepted response frame re-encodes to itself |
| `WireCodec.AcceptedWriteStorable` | src/protocol/codec.rs:97-172 | Every accepted write fits the u32 fields of log and table, and never looks like a tombstone |
| `WorkerPool.ReachableInv` | src/network/server.rs:126-305 | In every interleaving: the counter counts workers in connections, no dispatched connection is lost or duplicated, each token is queued or stopped one worker, nothing but tokens follows a token |
| `WorkerPool.DispatchedAreAdmitted` | src/network/server.rs:128-153 | The clients dispatched or being sent are exactly those accepted while fewer than the limit were inside a connection |
| `WorkerPool.AcceptOutcome` | src/network/server.rs:130-153 | Every client is taken from the listener; below the limit it goes to the channel, at the limit it is dropped and nothing changes |
| `WorkerPool.AdmittedConserved` | src/network/server.rs:128-305 | At every moment each admitted client is being sent, queued, with a worker, or handled, and in one of these only |
| `WorkerPool.ActiveCount` | src/network/server.rs:275-305 | The active count is the number of workers inside a connection and never underflows |
| `WorkerPool.ShutdownComplete` | src/network/server.rs:170-188 | After shutdown the connections handled are exactly the clients admitted, each worker took one token, the channel is empty |
| `WorkerPool.NoDeadlock` | src/network/server.rs:150-178 | Unless idle in accept or finished, some step is possible; a blocked sender always has a live worker |
| `WorkerPool.ShutdownTerminates` | src/network/server.rs:170-188 | Once shutdown has begun, the server can take only a bounded number of steps |
| `WorkerPool.ShutdownReached` | src/network/server.rs:170-188 | From every state with shutdown signalled, the finished state is reached |
| `WorkerPool.ShutdownFromAnywhere` | src/network/server.rs:191-194 | Signalled at any moment of any run, shutdown can complete, with exactly the clients admitted by then handled |
| `WorkerPool.Drains` | src/network/server.rs:252-305 | Before shutdown the server gets by its own steps to where it accepts again and every admitted client has been handled |
| `WorkerPool.ChannelFills` | src/network/server.rs:126-153 | With all workers busy elsewhere the channel takes as many clients as its capacity |

## Left out

- Crashes inside the writing of a table file: the finished, synced file appears in one step. The assumption is needed: the builder writes under the final name, and `StorageManagers.OpenStorage` proves that any table file that does not parse, such as the empty one it starts with, makes opening fail.
- Durability of directory entries and of the truncation before the next fsync: truncating or re-creating the log is one durable step.
- I/O errors and poisoned locks: crashes are the only failures of the storage engine.
- Memory ordering of the relaxed atomics: each load and store is one step of an interleaving.
- System time: timestamps are arbitrary u64 arguments.
- Engines.Engine.Put: requires that the record fits its 4-byte length field, which the source does not check and truncates silently. `TableSizes.RoundTripIff` proves the condition exact, and `WireCodec.AcceptedWriteStorable` that accepted client writes meet it.
- Engines.Engine.Delete: the same.
- StorageManagers.StorageManager.Flush: requires a table that fits the file's length fields and an identifier below 2^64 - 1. `TableSizes` proves the first for tables of loggable entries below 2^59 bytes.
- Engines.OpenEngine: requires memtable limit and log to be at most 2^58 bytes, and identifiers not to run out. A directory in which a name such as `sstable_7.sst` passes for a table without being its canonical name is covered only by the failure condition of `StorageManagers.OpenStorage`.
- SSTables.OpenTable: an index offset past the end of the file is the error `Overflow`, where the source panics in debug builds and wraps in release builds.
- Arithmetic overflow panics of debug builds: sequence numbers and identifiers wrap as in release builds.
- Reading on after a reader's first `None` or error, where its cursor and position differ.
- `WalWriter::open_append`, `MemTable::should_flush`, `StorageManager::compact`, the `SSTable` metadata struct and entry-size helpers: unused by the engine or unimplemented.
- Concurrent readers are part of the engine machine's state, not objects: `Engines.Engine.Get` is a get with nothing else going on. The look into the tables is one step, as the source holds the list's exclusive lock for it; where earlier gets left the file cursors does not matter (`SSTables.SSTableReader.Get`).
- Sockets, timeouts, connection handling, the CLI, the server binary, logging and the configuration builder.
- Panicking workers: a connection always returns control to its worker.

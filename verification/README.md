# A verified model of the durable Bloom filter

The repository is a Go library around Bloom filters: an append-only store that recovers from crashes, a
write-ahead log, a counting filter with bit-packed counters, wire formats guarded by CRC-32, filter
algebra, and partitioned filters with rotation. This project models that behaviour in Dafny and proves what
it promises over whole runs.

Each part comes in three layers:

* *values*: what a file, a filter or a run is, as datatypes and functions
  (`Bloom`, `Records`, `StoreLog`, `StoreRuns`, `WalRuns`, `Counting`, `CountingRuns`, `CountingMerges`,
  `RotationRuns`);
* *objects*: classes and methods with the source's fields and loops, proved against the values
  (`BloomFilter`, `Store`, `Wal`, `CountingFilter`, `Partition`, `Merge`);
* *theorems* about the values (`StoreTheorems`, `StoreSessions` and the lemmas of the other modules). Each
  method's contract is one step of the value-level runs and says which of its objects are new, so that calls
  can be chained and the theorems carry over to the objects.

| files | what they hold |
|---|---|
| `Bits`, `Words`, `Numerals`, `Results` | bits and bit fields of byte sequences, big-endian numbers, 64-bit word arithmetic, numbers given by their bytes |
| `Crc32`, `Crc32Table` | bit-serial CRC-32, its burst detection, and its equality with the table-driven reference code of section 8 of RFC 1952 |
| `Hash`, `Murmur3` | double hashing over FNV-1a and FNV-1; MurmurHash3-128 |
| `Bloom`, `BloomFilter`, `BitAlgebra`, `Merge` | the filter, its operations, population counts, merging |
| `Codec` | the v1 and v2 wire formats |
| `Framing`, `Records`, `StoreLog`, `StoreRuns`, `StoreTheorems`, `StoreSessions`, `Store` | logs of self-delimiting frames, and the append-only store |
| `WalEntries`, `WalRuns`, `Wal` | the write-ahead log |
| `PackedCounters`, `Counting`, `CountingRuns`, `CountingMerges`, `CountingFilter`, `CountingSnapshot` | the counting filter |
| `RotationRuns`, `Partition` | partitioned and rotating filters |
| `KnownValues`, `MurmurValue` | hashes, checksums and a record worked out from the definitions |

A law that relates two uses of one constant holds of other constants too. So the literal bytes of every format, the
residue of CRC-32, and some hash and checksum values are theorems of their own.

Conventions: bytes are `bv8`; a Go `uint64` is a natural number below 2^64 with every wrap written out; a Go
`uint` holding a size is a natural number. A file is a byte sequence; a crash keeps a prefix of it. The FNV
offset and prime are those of Go's `hash/fnv`, which is not part of the repository. Each method that holds a
lock in the source is one atomic step.

Where the code and its own documentation part, the model follows the code:

* The store header records m but not k, and replay assumes k = 7. The filter after a crash is the one before it
  (m, k and bits) exactly when a checkpoint is among the surviving records or k was 7; its bits alone are the
  same exactly when a checkpoint survives or the surviving items set the same positions with either k
  (`StoreTheorems.CrashRecoversPrefix`). `StoreTheorems.RecoveredBitsDiffer` gives runs whose bits differ. No item
  is lost either way (`StoreTheorems.CommittedItemsSurvive`).
* A checkpoint that passes its CRC but does not decode is said to be skipped. The second pass still starts at
  it, so everything before it is forgotten (`StoreTheorems.UndecodableCheckpointForgets`). For any file with a
  valid header, Open gives what one pass over all records would give exactly when the last checkpoint decodes, or
  the filter before it has the parameters replay starts with and all its bits are set again by later items
  (`StoreTheorems.OpenIsOnePassIff`). A file with one item and an empty checkpoint fails the condition
  (`StoreTheorems.UndecodableCheckpointHides`).
* When the k positions of an item repeat, a successful counting Add can wrap a counter to zero, and the item
  then tests absent (`Counting.RepeatedPositionWraps`); `Counting.PresentAfterAddIff` says exactly when, and
  `CountingRuns.RunCountsModulo` gives the law of whole runs.
* A merge that clamps loses hits, and an item that was added more often than removed can then test absent
  (`CountingMerges.ClampedMergeForgets`); `CountingMerges.PresentIffMoreHitsThanLost` says exactly when.
* The size of a counting filter wraps at 2^64: New allocates room for its counters exactly when the size fits
  (`Counting.AllocatedIff`), and a filter without room can forget every item (`Counting.WrappedSizeForgets`).
* OpenWAL leaves a torn tail in place, and entries appended behind one can be lost
  (`WalRuns.TornTailHidesEntries`); a run reads back as it was written exactly when the log was opened on a file
  that ended cleanly (`WalRuns.RunReadsBackIff`).

## Model

| member | source | states |
|---|---|---|
| StoreTheorems.CrashRecoversPrefix | internal/store/store.go:91-194 | after any run of adds, checkpoints, crashes and reopenings, a crash at any byte of the log and a reopening give exactly the records wholly before the cut and truncate the file to their end; the filter (m, k and bits) is the pre-crash one if and only if one of them is a checkpoint or k was 7, always so for a store created with k = 7; its bits are the same if and only if one of them is a checkpoint or their items set the same positions with k = 7 |
| StoreTheorems.RecoveredBits | internal/store/store.go:143-157 | the bits-level condition for any filter a session may hold |
| StoreTheorems.RecoveredBitsDiffer | internal/store/store.go:143-157 | in every filter of 2^e >= 8 bits created with k below 7, one added item with an even number of odd bytes comes back with other bits |
| StoreTheorems.CommittedItemsSurvive | internal/store/store.go:104-186 | across any run and for every starting k, every item whose Add record lies wholly in the file tests present after Open |
| StoreTheorems.CheckpointErasure | internal/store/store.go:123-157 | in the log of any run, erasing any given set of checkpoints leaves the recovered filter unchanged if and only if that filter has k = 7 or a checkpoint is left; so all erasures are harmless if and only if it has k = 7, as it always has in a store created with k = 7 |
| StoreTheorems.DefaultKStays | internal/store/store.go:143-157 | a store created with k = 7 never holds a filter with another k, through any crashes and reopenings |
| StoreTheorems.UndecodableCheckpointForgets | internal/store/store.go:134-148 | if the last CRC-valid checkpoint does not decode, Open recovers exactly the items added after it, with k = 7 |
| StoreTheorems.TwoPassesAgreeIff | internal/store/store.go:110-157 | for any list of parseable records, starting at the last checkpoint gives what one pass over all of them gives if and only if that checkpoint decodes, or the filter before it has the parameters replay starts with and every bit of it is set again by an item added after it |
| StoreTheorems.OpenIsOnePassIff | internal/store/store.go:91-157 | the same for Open on any file with a valid header and m > 0, whatever bytes follow |
| StoreTheorems.OpenRefusesIff | internal/store/store.go:96-101 | Open reports a corrupt header if and only if the file has fewer than 8 bytes, and a foreign file if and only if it has them and does not start with "BLS" and 1 |
| StoreTheorems.OpenAnswersIff | internal/store/store.go:102-175 | on any other file, with m read from bytes 4 to 7, Open gives a filter if and only if m is positive or the last checkpoint decodes; otherwise it panics if and only if there is an item to replay |
| StoreTheorems.OpenRecovers | internal/store/store.go:102-175 | a file that Open accepts keeps exactly its header and its parseable records; the filter is that of the last checkpoint if there is one and it decodes, else an empty one with k = 7, with the items added after the last checkpoint, decodable or not |
| StoreTheorems.UndecodableCheckpointHides | internal/store/store.go:134-148 | Open on the file of one Add record and one checkpoint record without payload keeps every byte and hides the item, which one pass would have kept |
| StoreTheorems.RecoveryIsIdempotent | internal/store/store.go:91-175 | for any bytes Open accepts, reopening what it left truncates nothing and gives the same filter |
| StoreTheorems.RecoveredLogIsAppendable | internal/store/store.go:159-225 | a record written after recovering any damaged file is read back after exactly the records recovered, with nothing left over |
| StoreTheorems.DamageEndsReplay | internal/store/store.go:110-152 | damage to a record confined to its type byte, four consecutive payload bytes or its checksum ends replay exactly before that record, whatever follows |
| StoreSessions.OpenedStaysSynced | internal/store/store.go:91-194 | whatever bytes a file holds, once Open accepts it with a filter, after any adds, checkpoints, crashes at any byte of the log and reopenings, reopening keeps every byte and gives exactly the filter in memory, k included; no reopening fails unless the header has m = 0 |
| StoreSessions.SessionStaysSynced | internal/store/store.go:91-194 | the same from any session that reopening would restore |
| StoreSessions.WriteIsAtomic | internal/store/store.go:159-225 | a crash anywhere inside the record of an Add or a Checkpoint gives back the session before it, a crash after it the session after it |
| StoreSessions.WriteKeepsSynced | internal/store/store.go:178-194 | an Add on any recovered file is durable: reopening keeps its record and holds the filter with the item; a Checkpoint is durable and changes no filter |
| StoreSessions.CrashKeepsSynced | internal/store/store.go:91-175 | after a crash and a reopening the session is synced again; only a header with m = 0 can leave no filter |
| StoreRuns.RunMatchesTrace | internal/store/store.go:66-194 | no run ever fails to reopen; its file is always the header and the encoding of its records, and its filter the last of its history |
| StoreRuns.RunSound | internal/store/store.go:66-194 | at every point of every run the filter in memory is the one built from all logged items with its k, agrees with replay whenever a checkpoint exists or k = 7, and every checkpoint decodes to the filter of its time |
| StoreRuns.OpenAfterCut | internal/store/store.go:91-175 | opening any written log cut at any byte keeps the whole records before the cut and their replay |
| StoreRuns.LocalRecovered | internal/store/store.go:104-157 | the recovered filter is one the session may hold, and equals the old one if and only if a checkpoint covers the log or k was 7 |
| StoreRuns.ReplayWithoutCheckpoint | internal/store/store.go:143-157 | replay of a log without checkpoints gives the k = 7 filter of all its added items |
| StoreLog.EndsAgree | internal/store/store.go:110-152 | replay from any record boundary reads the remaining records and ends at the same byte |
| StoreLog.HeaderBytes | internal/store/store.go:77-80 | the header is "BLS", 1, and m with its most significant byte first |
| Store.Store.Create | internal/store/store.go:68-86 | parameters of zero are refused and touch nothing; otherwise file and filter start a run |
| Store.Store.Open | internal/store/store.go:91-175 | the two-pass loop truncates the file and builds the filter as the specification of recovery says, and every error leaves the file alone |
| Store.Store.FindLastCheckpoint | internal/store/store.go:110-121 | the first loop finds the byte offset of the last checkpoint among the parseable records, or -1 |
| Store.Store.ReplayFrom | internal/store/store.go:128-152 | the second loop computes replay of the records from a byte on, and where they end |
| Store.Store.Add | internal/store/store.go:178-181 | one step of a run: the filter gains the item and the file its record |
| Store.Store.Test | internal/store/store.go:184-186 | membership in the filter in memory |
| Store.Store.Checkpoint | internal/store/store.go:191-194 | one step of a run: the file gains the encoding of the filter |
| Store.Store.WriteRecord | internal/store/store.go:211-215 | the file grows by exactly one encoded record |
| Store.Store.EncodeInto | internal/store/store.go:217-225 | the buffer filled in place is the encoded record |
| Records.ParseEncoded | internal/store/store.go:217-257 | parsing an encoded record, whatever follows it, gives it back with its size |
| Records.EncodeParsed | internal/store/store.go:217-257 | whatever parses is exactly the encoding of the parsed record |
| Records.RecordBytes | internal/store/store.go:217-225 | byte for byte, a record is its type (1 for an item, 2 for a checkpoint), its length, its payload, and the checksum of all of these, the numbers most significant byte first |
| KnownValues.EmptyRecord | internal/store/store.go:217-225 | the record that adds the empty item is 01 00 00 00 00 FB 42 DE AD |
| Records.DamageRejected | internal/store/store.go:235-257 | parsing rejects every change confined to the type byte, four consecutive payload bytes or the checksum, for payloads of any length |
| Framing.FramesOfEncoded | internal/store/store.go:110-152 | reading a printed log gives its frames and then those of what follows it |
| Framing.EncodeFrames | internal/store/store.go:110-152 | the frames read from any bytes print to exactly the bytes consumed, and nothing readable follows |
| Framing.RecoveredIsClean | internal/store/store.go:159-172 | cutting the unreadable end off loses no frame and leaves nothing to cut |
| Framing.AppendAfterRecovery | internal/store/store.go:159-215 | a frame appended after that is read back last |
| Framing.CutFrames | internal/store/store.go:110-152 | a log cut at any byte is read as exactly the frames before the cut |
| Framing.WholeIsLargest | internal/store/store.go:110-152 | the number of frames before a cut is the largest number that fits |
| Framing.FramesFromMiddle | internal/store/store.go:123-152 | reading from a frame boundary finds the remaining frames and the same end |
| WalRuns.RunIsConsecutive | internal/store/wal.go:42-93 | from a cleanly ended file, in any run of Append, Flush and Close-and-reopen, disk then buffer are the old entries and all appended ones in order with consecutive sequence numbers; the file stays clean and fewer entries than the capacity are pending |
| WalRuns.CutReadsPrefix | internal/store/wal.go:125-141 | after a cut at any byte ReadAll returns exactly the entries wholly before it |
| WalRuns.WrittenIsReadIff | internal/store/wal.go:42-93 | flushed entries are read back after the old ones with nothing left over if and only if the file ended cleanly |
| WalRuns.RunAppends | internal/store/wal.go:42-119 | on any file, torn or not, a run only appends: the file and the encoded buffer are the old file followed by the encodings of the appended entries in order, and fewer entries than the capacity are pending |
| WalRuns.AppendsFillBuffer | internal/store/wal.go:47-71 | after n Appends the file has gained exactly the first n - n % size entries, size being the configured buffer size, or 32 if that is not positive; the others are pending |
| WalRuns.FlushWritesAll | internal/store/wal.go:73-93 | a Flush after any run leaves nothing pending and everything appended in the file |
| WalRuns.MaxSeqIsLargest | internal/store/wal.go:187-205 | the number an opened log resumes from is the largest sequence number on disk, or 0 |
| WalRuns.RunReadsBackIff | internal/store/wal.go:42-141 | after any run of Append, Flush and Close-and-reopen, disk then buffer read as the old entries and all appended ones consecutively numbered, with nothing left over, if and only if the log was opened on a file that ended cleanly |
| WalRuns.DamageEndsReading | internal/store/wal.go:120-141 | an entry damaged in four consecutive bytes outside its length field, or in its checksum, ends reading exactly before it, whatever follows |
| WalRuns.TornTailHidesEntries | internal/store/wal.go:42-58 | on a file of one stray byte, an appended and flushed entry is not read back |
| WalEntries.DecodeEncoded | internal/store/wal.go:153-185 | decoding an encoded entry, whatever follows it, gives it back with its size |
| WalEntries.EncodeDecoded | internal/store/wal.go:153-185 | whatever decodes is exactly the encoding of the decoded entry |
| WalEntries.EntryBytes | internal/store/wal.go:153-163 | byte for byte, an entry is its sequence number, type, length, payload, and the checksum of all of these, the numbers most significant byte first |
| WalEntries.DamageRejected | internal/store/wal.go:165-185 | decoding rejects every change to an entry confined to four consecutive bytes outside its length field, or to its checksum, for payloads of any length |
| Wal.EncodeInto | internal/store/wal.go:153-163 | the buffer filled in place is the encoded entry |
| Wal.ReadAll | internal/store/wal.go:120-141 | the loop returns every entry readable from the front of the file |
| Wal.ReplaySeq | internal/store/wal.go:187-205 | the loop returns the largest sequence number among them |
| Wal.WAL.constructor | internal/store/wal.go:42-58 | the log opens with the last number on disk, an empty buffer, and the file untouched |
| Wal.WAL.Append | internal/store/wal.go:61-71 | the entry takes the next number, modulo 2^64, and a full buffer is flushed |
| Wal.WAL.FlushLocked | internal/store/wal.go:80-93 | the loop writes the buffered entries in order and empties the buffer |
| PackedCounters.SetRefines | internal/counting/counting.go:190-229 | for every width, writing a packed counter is writing v mod 2^width in the plain array of counters, with the padding unchanged |
| PackedCounters.CounterAfterSet | internal/counting/counting.go:190-229 | the written counter reads back v mod 2^width and every other one is unchanged, straddling bytes or not |
| PackedCounters.PaddingAfterSet | internal/counting/counting.go:215-229 | a write never touches a padding bit |
| PackedCounters.PackedExtensional | internal/counting/counting.go:190-229 | equal counters and equal padding mean equal bytes |
| PackedCounters.CounterIsDigits | internal/counting/counting.go:203-213 | counter p is the data as one little-endian number, divided by 2^(p * width), modulo 2^width |
| Counting.BumpAllEffect | internal/counting/counting.go:93-97 | the loop changes every counter by as many units as its position occurs, modulo 2^width |
| Counting.AddEffect | internal/counting/counting.go:81-100 | the exact modular effect of a successful Add, for repeated positions too |
| Counting.RemoveEffect | internal/counting/counting.go:105-124 | the exact modular effect of a successful Remove |
| Counting.AddRefusedIff | internal/counting/counting.go:86-92 | Add is refused, and changes nothing, if and only if the counter at one of the item's k hashes is 2^width - 1 |
| Counting.PresentIff | internal/counting/counting.go:127-137 | an item tests present if and only if the counters at all of its k hashes are positive |
| Counting.CountIsHashes | internal/counting/counting.go:182-188 | a position occurs as often in an item's positions as there are indices below k whose hash it is |
| Counting.RemoveUndoesAdd | internal/counting/counting.go:81-124 | Remove right after Add restores every byte and the count if and only if the item tests present in between |
| Counting.SimpleRoundTrip | internal/counting/counting.go:81-137 | with distinct positions the item always tests present in between, and so is removed without a trace |
| Counting.PresentAfterAddIff | internal/counting/counting.go:81-137 | an added item tests present if and only if no counter of it, raised by its multiplicity, is zero modulo 2^width |
| Counting.RepeatedPositionWraps | internal/counting/counting.go:81-137 | with one 1-bit counter and k = 2 every first Add succeeds and its item tests absent |
| Counting.SimpleAdd | internal/counting/counting.go:81-100 | with distinct positions Add raises exactly the item's counters by one, never past the maximum |
| Counting.SimpleRemove | internal/counting/counting.go:105-124 | with distinct positions Remove lowers exactly the item's counters by one |
| CountingRuns.RunCounts | internal/counting/counting.go:41-137 | in every run from New over items with distinct positions that removes only outstanding items, each counter is the number of outstanding items hitting it, never above the maximum; each of them tests present, so no such Remove fails; the count is their number |
| CountingRuns.RunCountsModulo | internal/counting/counting.go:41-137 | in every run that removes only outstanding items, repeated positions or not, each counter is the number of hits of the outstanding items modulo 2^width, and at any point an item tests present if and only if none of its positions is hit a multiple of 2^width times |
| CountingRuns.SameCountsSameBytes | internal/counting/counting.go:79-137 | histories with equal outstanding hits leave equal bytes, whatever their order |
| CountingRuns.EvenItemsAreSimple | internal/counting/counting.go:182-188 | with 2^e counters and k at most 2^e, items with an even number of odd bytes have distinct positions |
| CountingRuns.ClampAlgebra | internal/counting/snapshot.go:131-139 | saturating merge is commutative and associative on counters |
| CountingRuns.MergeKeepsPresent | internal/counting/snapshot.go:118-142 | what is present in either filter is present in the merge |
| CountingRuns.BuiltCounts | internal/counting/counting.go:81-100 | adding a list of items from scratch succeeds and counts them if no counter would pass the maximum |
| CountingRuns.MergeIsJointHistory | internal/counting/snapshot.go:118-142 | without clamping, merging gives the very bytes and count of one filter to which both histories were added |
| CountingMerges.CounterIsHitsLessLost | internal/counting/snapshot.go:118-142 | in every history of adds, removes of outstanding items and merges, over items with distinct positions, each counter is the number of outstanding hits less what clamped merges lost at that position |
| CountingMerges.CounterSaturates | internal/counting/snapshot.go:131-139 | in every history of adds and merges, over items with distinct positions, each counter is the number of outstanding hits or, if there are more, 2^width - 1 |
| CountingMerges.PresentIffMoreHitsThanLost | internal/counting/snapshot.go:118-142 | so an item tests present if and only if each of its positions has more outstanding hits than merges lost there |
| CountingMerges.CounterModulo | internal/counting/snapshot.go:118-142 | over any items, repeated positions or not, the same law modulo 2^width |
| CountingMerges.PresentIffModulo | internal/counting/snapshot.go:118-142 | and an item tests present if and only if hits and lost hits differ modulo 2^width at each of its positions |
| CountingMerges.MergedIsMerge | internal/counting/snapshot.go:131-140 | the merge used by histories is the only filter that meets the contract of Merge |
| CountingMerges.ClampedMergeForgets | internal/counting/snapshot.go:131-140 | two 1-bit filters that each hold an item are merged and the item is removed once: the other copy is outstanding and tests absent |
| CountingFilter.CountingFilter.New | internal/counting/counting.go:41-58 | bad parameters are refused with their own errors; otherwise the bytes are those of the wrapped size, and the filter is valid, and then empty, if and only if m * counterBits + 7 is below 2^64 |
| Counting.AllocatedIff | internal/counting/counting.go:48-49 | the bytes allocated are those the counters need if and only if the size in bits, rounded up, fits 64 bits; they are always the whole bytes of that size modulo 2^64 |
| Counting.WrappedSizeForgets | internal/counting/counting.go:48-56 | 2^61 counters of 8 bits get no byte: every Add succeeds and its item tests absent |
| CountingFilter.CountingFilter.ReadField | internal/counting/counting.go:203-213 | the loop accumulates the value of the bit field |
| CountingFilter.CountingFilter.WriteField | internal/counting/counting.go:216-229 | the loop writes the field's bits and no other |
| CountingFilter.CountingFilter.HasRoom | internal/counting/counting.go:86-92 | the guard of Add: every counter of the item is below the maximum |
| CountingFilter.CountingFilter.Bump | internal/counting/counting.go:93-97 | the loop applies the increment, or the decrement, at each position in turn |
| CountingFilter.CountingFilter.AddItem | internal/counting/counting.go:81-100 | a refused Add reports overflow and changes nothing; otherwise the state is the specification's Add |
| CountingFilter.CountingFilter.RemoveItem | internal/counting/counting.go:105-124 | a refused Remove reports underflow and changes nothing; otherwise the state is the specification's Remove |
| CountingFilter.CountingFilter.Test | internal/counting/counting.go:127-137 | true if and only if every counter of the item is positive |
| CountingFilter.CountingFilter.Reset | internal/counting/counting.go:150-157 | the filter is as new |
| CountingFilter.CountingFilter.Clone | internal/counting/snapshot.go:100-113 | an equal filter that shares nothing |
| CountingFilter.CountingFilter.Merge | internal/counting/snapshot.go:118-142 | errors change nothing; otherwise every counter is a + b if that is below 2^width and 2^width - 1 if not, the padding and the other filter's counters are as before, and the counts add up |
| CountingSnapshot.RestoreSnapshot | internal/counting/snapshot.go:34-97 | restoring a snapshot, whatever follows it, gives the filter back, a negative count included |
| CountingSnapshot.SnapshotRestored | internal/counting/snapshot.go:34-97 | whatever restores starts with the snapshot of the result |
| CountingSnapshot.SnapshotBytes | internal/counting/snapshot.go:34-55 | byte for byte, a snapshot is "CBF1", m, k, the counter width, the count in two's complement, the counters, and the checksum of all of these, the numbers most significant byte first |
| CountingSnapshot.RestoreErrors | internal/counting/snapshot.go:59-97 | which error every blob gets, and that every other is restored |
| CountingSnapshot.DamageRejected | internal/counting/snapshot.go:73-84 | every change to a snapshot confined to four consecutive bytes outside its magic and size fields, or to its checksum, is reported as a CRC mismatch |
| CountingSnapshot.MarshalSnapshot | internal/counting/snapshot.go:34-55 | the buffer filled in place is the snapshot; nil is refused |
| Murmur3.NoLocalCollision | internal/hash/murmur3.go:27-128 | two unequal inputs of one length, however long, that differ only inside one aligned 16-byte block or only in the tail never get the same 128-bit value |
| MurmurValue.AlphabetSum | internal/hash/murmur3.go:27-141 | with seed 9747B28C the 26 letters a to z have the sum EC649C879F1A7626 E22F83DEBFB065E2 |
| Murmur3.RoundBijectiveInState | internal/hash/murmur3.go:34-53 | under any block, a block step is a bijection of the 2^128 states: its inverse, both ways |
| Murmur3.RoundBijectiveInBlock | internal/hash/murmur3.go:34-53 | from any state, a block step is a bijection from blocks to states: its inverse, both ways |
| Murmur3.MixTailTwice | internal/hash/murmur3.go:56-112 | mixing the same tail in twice restores the state, so the tail step is a bijection of states |
| Murmur3.MixTailInjectiveInTail | internal/hash/murmur3.go:56-112 | the tail step is injective in the tail |
| Murmur3.FinishBijective | internal/hash/murmur3.go:115-127 | for any length, finalization is a bijection of the 2^128 states: its inverse, both ways |
| Murmur3.Fmix64Bijective | internal/hash/murmur3.go:134-141 | fmix64 is a bijection of the 2^64 words: its inverse, both ways |
| Murmur3.Murmur3Sum128 | internal/hash/murmur3.go:27-128 | the loops compute the specified fold over blocks, tail and finalization |
| Murmur3.AbsorbTail | internal/hash/murmur3.go:59-107 | XORing the tail bytes into place from the last to the first gives their little-endian number |
| Murmur3.GetBlock64Words | internal/hash/murmur3.go:143-156 | the words read are the halves of the block |
| Murmur3.BlocksAppend | internal/hash/murmur3.go:32-54 | absorbing whole blocks and then more data is absorbing all of it, from the front |
| Words.RotlBack | internal/hash/murmur3.go:130-132 | rotating by the rest of the word rotates back |
| Words.XorIsBitwise | internal/hash/murmur3.go:134-141 | in the exclusive or of two numbers each bit is set if and only if it differs in them |
| Words.XorShift33Twice | internal/hash/murmur3.go:134-141 | the XOR-shift by 33 is its own inverse |
| Hash.PositionsDistinctIff | internal/hash/hash.go:12-19 | in a filter of 2^e bits the k positions are pairwise distinct if and only if k is at most 2^e divided by the largest power of two dividing both 2^e and the second base hash |
| Hash.EvenItemsAreDistinct | internal/hash/hash.go:12-31 | for items with an even number of odd bytes the positions are distinct if and only if k is at most the filter size |
| Hash.Fnv64Parity | internal/hash/hash.go:27-31 | the second base hash is odd if and only if an even number of bytes are odd |
| Hash.PositionsRepeat | internal/hash/hash.go:12-19 | positions i and j coincide if and only if that order divides j - i |
| Hash.PositionsMove | internal/hash/hash.go:12-19 | modulo 2^64 the first position is the first base hash, and each next one is the one before it plus the second base hash |
| Hash.PositionsReduce | internal/hash/hash.go:12-19 | for every filter size, power of two or not, a position is that number modulo the size |
| Hash.FirstPosition | internal/hash/hash.go:12-19 | with k = 1 the only position is the first base hash modulo the size |
| Hash.OneByteDiffers | internal/hash/hash.go:21-31 | items of one length that differ in exactly one byte differ in both base hashes |
| KnownValues.HashesOfAb | internal/hash/hash.go:21-31 | the base hashes of "ab" are 089C4407B545986A and 08326707B4EB37B8 |
| Crc32.BurstDetected | internal/store/store.go:248-253 | messages of one length that differ only inside 32 consecutive bits have different checksums |
| Crc32.FourBytesDetected | internal/store/store.go:248-253 | so do messages that differ only inside four consecutive bytes |
| Crc32Table.ChecksumIsReference | internal/store/store.go:222-222 | the bit-serial checksum is `update_crc(0, buf)` of section 8 of RFC 1952 |
| Crc32Table.FeedIsTableLoop | internal/store/store.go:222-222 | the register after the message bits is the one after the table-driven loop inside `update_crc` |
| Crc32Table.Residue | internal/store/store.go:222-222 | for every message, feeding it and then the four bytes of its checksum, least significant byte first, leaves the register at DEBB20E3, the residue of CRC-32 |
| KnownValues.CheckValue | internal/store/store.go:222-222 | the checksum of the digits "123456789" is CBF43926 |
| Codec.UnmarshalMarshalled | internal/codec/codec.go:45-163 | decoding a v2 encoding, whatever follows it, gives m, k and bits back |
| Codec.UnmarshalMarshalledV1 | internal/codec/codec.go:73-135 | decoding a v1 encoding gives m, k and bits back |
| Codec.MarshalUnmarshalled | internal/codec/codec.go:92-163 | a v2 blob that decodes starts with the encoding of its filter, a v1 blob is exactly it |
| Codec.MarshalUnmarshalledV1 | internal/codec/codec.go:123-135 | the v1 half |
| Codec.MarshalUnmarshalledV2 | internal/codec/codec.go:137-163 | the v2 half |
| Codec.BytesV1 | internal/codec/codec.go:65-84 | byte for byte, a v1 blob is "BLM" and 1, m, k, and the bits, the numbers most significant byte first |
| Codec.BytesV2 | internal/codec/codec.go:33-63 | byte for byte, a v2 blob is "BLM" and 2, the version 2, m, k, the bits, and the checksum of all of these |
| Codec.UnmarshalErrors | internal/codec/codec.go:92-163 | which error every blob gets that does not decode |
| Codec.CorruptBitsRejected | internal/codec/codec.go:152-159 | changing up to four consecutive bytes of the bit section is always reported as a CRC mismatch |
| Codec.ConvertPreserves | internal/codec/format.go:88-107 | upgrading works on everything that decodes, yields v2 and never changes what is decoded |
| Codec.InspectAgrees | internal/codec/format.go:21-70 | on every blob that decodes, Inspect reports its parameters and where its bits lie |
| Codec.InspectAnswers | internal/codec/format.go:21-70 | for every blob, the error or the version, header size and CRC flag that Inspect reports |
| Codec.Marshal | internal/codec/codec.go:45-63 | the buffer filled in place is the v2 encoding; nil gives nil |
| Codec.MarshalV1 | internal/codec/codec.go:73-84 | the buffer filled in place is the v1 encoding; nil gives nil |
| Codec.Decode | internal/codec/codec.go:92-105 | a blob that decodes becomes a new filter object of that value; any other gives its error |
| Bloom.BitsAreUnionOfPositions | internal/filter/filter.go:53-57 | the set bits are exactly the union of the positions of the added items |
| Bloom.SameItemsSameFilter | internal/filter/filter.go:53-57 | order and repetition of adds do not matter |
| Bloom.NoFalseNegatives | internal/filter/filter.go:53-69 | every added item tests present |
| Bloom.InsertKeeps | internal/filter/filter.go:53-69 | adding an item never hides another |
| Bloom.ContainsIff | internal/filter/filter.go:53-69 | in a filter built by adding any list of items, an item tests present if and only if each of its k positions is a position of an added item |
| BloomFilter.BloomFilter.New | internal/filter/filter.go:22-27 | parameters of zero are refused; otherwise the filter is empty |
| BloomFilter.BloomFilter.NewFromParts | internal/filter/filter.go:30-41 | bad parameters and lengths are refused; otherwise the filter holds a copy of the bits |
| BloomFilter.BloomFilter.Set | internal/filter/filter.go:152-158 | one bit is set, none beyond the array |
| BloomFilter.BloomFilter.Get | internal/filter/filter.go:160-166 | one bit is read, false beyond the array |
| Bits.LittleEndianBit | internal/filter/filter.go:152-166 | bit p of a byte array is binary digit p of the array read as a little-endian number |
| BloomFilter.BloomFilter.Add | internal/filter/filter.go:53-57 | the loop sets the item's positions and nothing else |
| BloomFilter.BloomFilter.Test | internal/filter/filter.go:62-69 | true if and only if all the item's positions are set |
| BloomFilter.BloomFilter.Reset | internal/filter/ops.go:12-16 | all bits are clear |
| BloomFilter.BloomFilter.Clone | internal/filter/ops.go:19-23 | an equal filter that shares nothing |
| BloomFilter.BloomFilter.CombineWith | internal/filter/ops.go:27-38 | the in-place loop combines every byte once, also with the filter itself; errors change nothing |
| BloomFilter.BloomFilter.Union | internal/filter/ops.go:27-38 | bytewise OR in place |
| BloomFilter.BloomFilter.Intersection | internal/filter/ops.go:42-53 | bytewise AND in place |
| BloomFilter.BloomFilter.Equals | internal/filter/ops.go:56-72 | true if and only if m, k and all bits agree |
| BloomFilter.BloomFilter.PopCount | internal/filter/ops.go:85-91 | the cardinality of the set of set bits |
| BloomFilter.BloomFilter.Difference | internal/filter/ops.go:103-114 | bytewise AND-NOT in place |
| BloomFilter.BloomFilter.XOR | internal/filter/ops.go:117-128 | bytewise XOR in place |
| BloomFilter.BloomFilter.SetBit | internal/filter/ops.go:131-136 | the bit is set if it is below m |
| BloomFilter.BloomFilter.ClearBit | internal/filter/ops.go:139-144 | the bit is cleared if it is below m |
| BitAlgebra.CombineIsOnSets | internal/filter/ops.go:27-128 | bytewise OR, AND, AND-NOT and XOR are union, intersection, difference and symmetric difference of the sets of set bits |
| BitAlgebra.ClearLowest | internal/filter/ops.go:154-161 | b & (b - 1) has exactly one set bit fewer |
| BitAlgebra.PopCnt | internal/filter/ops.go:154-161 | Kernighan's loop ends with the number of set bits |
| BitAlgebra.PopCountIsCardinality | internal/filter/ops.go:85-91 | the byte counts add up to the cardinality of the set of set bits |
| BitAlgebra.PopCountAtMostM | internal/filter/ops.go:85-91 | a filter built by New and Add has at most m set bits |
| BitAlgebra.UnionIsConcatenation | internal/merge/merge.go:28-42 | the union of two filters is, byte for byte, the filter of both item lists |
| BitAlgebra.UnionAllIsConcatenation | internal/merge/merge.go:87-114 | the union of many filters is, byte for byte, the filter of the concatenated item lists |
| BitAlgebra.IntersectionAllContains | internal/merge/merge.go:118-145 | the intersection of many filters contains an item if and only if all of them do |
| BitAlgebra.InclusionExclusion | internal/merge/merge.go:150-168 | the population counts of OR and AND add up to those of the inputs |
| BitAlgebra.HammingIsMetric | internal/merge/merge.go:171-185 | Hamming distance is zero only on equal bits, symmetric, and satisfies the triangle inequality |
| Merge.Combined | internal/merge/merge.go:28-83 | mismatched or nil inputs are refused; otherwise a new filter, the inputs untouched |
| Merge.Union | internal/merge/merge.go:28-42 | a new filter over a new array, whose set bits are the union of the inputs' |
| Merge.Intersection | internal/merge/merge.go:49-63 | a new filter over a new array, whose set bits are the intersection of the inputs' |
| Merge.Difference | internal/merge/merge.go:69-83 | a new filter over a new array, whose set bits are those of the first input less those of the second |
| Merge.CombineMany | internal/merge/merge.go:87-145 | the first error from the front is reported; otherwise a new filter with the fold over all inputs |
| Merge.FirstErrorIs | internal/merge/merge.go:87-145 | there is no error if all filters fit the first; else it is that of the first one that does not: it is nil, or its parameters differ |
| Merge.SimilarityCounts | internal/merge/merge.go:150-168 | the loop counts the cardinalities of the intersection and the union |
| Merge.HammingDistance | internal/merge/merge.go:171-185 | the loop computes the Hamming distance |
| RotationRuns.RotationOrder | internal/partition/rotation.go:141-172 | from a fresh filter the i-th rotation resets partition i mod n, whatever is added in between |
| RotationRuns.AddedItemStays | internal/partition/rotation.go:79-93 | in every run an added item tests present until its routed partition comes up |
| RotationRuns.StaysUntilReset | internal/partition/rotation.go:141-172 | from any state, an item in its routed partition stays through any additions until that partition comes up |
| RotationRuns.RoutedExactlyUntilReset | internal/partition/partition.go:67-73 | without additions it is found there if and only if that partition has not come up |
| RotationRuns.FullTurnForgets | internal/partition/partition.go:78-87 | after n rotations in a row every item tests absent in every partition |
| RotationRuns.TurnsEmpty | internal/partition/rotation.go:141-172 | t rotations in a row empty exactly the next t partitions |
| RotationRuns.RestoreUndoesRun | internal/partition/rotation.go:188-221 | restoring a snapshot after any later run gives back the partitions of its time, while the next partition to reset and the history stay those of the later state |
| RotationRuns.RouteIsHash | internal/partition/partition.go:154-160 | an item is routed to its first base hash modulo the number of partitions |
| RotationRuns.PartitionHolds | internal/partition/rotation.go:79-172 | in every run from a fresh filter each partition is, byte for byte, the filter of the items routed to it and added since it was last reset |
| RotationRuns.TestsAnswer | internal/partition/partition.go:67-87 | so after every run Test on the routed partition answers as the filter of its items does, and Test on all of them as some partition's filter does |
| Partition.PartitionedFilter.New | internal/partition/partition.go:35-56 | bad parameters are refused; otherwise n empty filters that share nothing |
| Partition.PartitionedFilter.Add | internal/partition/partition.go:59-64 | the routed partition gains the item and no other changes |
| Partition.PartitionedFilter.Test | internal/partition/partition.go:67-73 | presence in the routed partition |
| Partition.PartitionedFilter.TestAll | internal/partition/partition.go:78-87 | presence in some partition |
| Partition.PartitionedFilter.ResetPartition | internal/partition/partition.go:131-140 | the partition is emptied and no other changes; a bad index is refused |
| Partition.RotatingFilter.New | internal/partition/rotation.go:64-76 | bad parameters are refused; otherwise the fresh state of the runs, in new objects |
| Partition.RotatingFilter.Add | internal/partition/rotation.go:79-81 | one step of a run: the routed partition gains the item |
| Partition.RotatingFilter.Test | internal/partition/rotation.go:84-86 | presence in some partition |
| Partition.RotatingFilter.Rotate | internal/partition/rotation.go:141-172 | one step of a run: the current partition is replaced by a new empty one and logged, and the next one becomes current |
| Partition.RotatingFilter.Snapshot | internal/partition/rotation.go:188-201 | the bits of every partition in order |
| Partition.RotatingFilter.Restore | internal/partition/rotation.go:204-221 | the partitions are replaced by new ones from the front up to the first part of the wrong length, which is reported; nothing else changes |

## Left out

- The command line in main.go, and real file calls: the disk is a byte sequence, and every write succeeds. A crash keeps a prefix of the file; a failed write followed by further writes is not modelled.
- The floating-point code: false-positive rates, sizing, cardinality estimates, saturation and similarity as ratios, and the saturation strategy of rotation, which depends on them.
- ScalableBloom and Builder, whose sizing depends on that code.
- The statistics package, tickers, goroutines and locks. Time stamps and saturation values of rotation events.
- The further hash strategies in internal/hash/enhanced.go, and Murmur3Hash, which no filter uses.
- Wrap-around of other 64-bit sizes: `(m + 7) / 8` in a Bloom filter, `partitions * 1000` and the like are computed without overflow.
- Aliasing of a caller's payload slice by the entries buffered in the write-ahead log: an entry holds the payload's value at Append.
- CountAt, Data, NonZeroCount, MaxObservedCount, IsEmpty, GetBit, Version and other accessors, which only read a field, a counter or a bit and decide nothing.
- Store.Store.Open: a header with m = 0 followed by an Add record makes the source panic on a nil filter before it truncates; the model returns this as an error result with the file untouched.
- Store.Store.Add: requires a filter. A store opened on a header with m = 0 and no usable record has none, and the source panics; the same holds for Store.Store.Test and Store.Store.Checkpoint.
- StoreRuns.RunMatchesTrace: m, k and item lengths are below 2^32, the width of their fields; this bounds every theorem about runs of the store. The source narrows larger values silently.
- StoreTheorems.CrashRecoversPrefix: a crash keeps the 8 header bytes; with fewer, Open reports a corrupt header (Store.Store.Open covers it).
- WalRuns.RunIsConsecutive: fewer than 2^64 sequence numbers, as in WalRuns.RunReadsBackIff; Wal.WAL.Append models the wrap itself.
- Operations of the CountingFilter class on an object whose size wrapped at 2^64: its methods require room for all counters.
- CountingFilter.CountingFilter.Merge: requires two different filters; merging one into itself deadlocks on its own lock.
- CountingSnapshot.SnapshotRestored: about values. The source builds an object even for a stored width of 0 or above 8; no such object is built here.
- Murmur3.AbsorbTail: the fallthrough switch over the tail length is a descending loop over its bytes.

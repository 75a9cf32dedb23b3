# Verified models of the key/value tables, the arena and the image archive

This project models, in Dafny 4.11, the parts of the repository that keep state:

- **The hash index** shared by all tables (`HashIndex.dfy`): a power-of-two array of entry numbers, probed linearly
  with a mask. It is disposable and holds no keys. Its invariant is proved for arbitrary hash values; `Fnv.dfy` is the
  FNV-1a loop that supplies them.
- **The fixed-size table** (`TombstoneTable.dfy`, `StaticTable.dfy`) and **the key-index table** (`KeyIndexTable.dfy`):
  an append-only store with tombstones. `TombstoneTable` is the state machine both follow, on values; the two classes
  hold the arrays, counters and arena bytes, and every method is proved to perform exactly one step of it.
- **The growing table** (`KvModel.dfy`, `KvTable.dfy`): variable-length pairs in a private arena, update as removal plus
  append, doubling by copying, compaction. `KvModel` is the specification, `KvTable` the object over arrays.
- **Its file format** (`Packed.dfy`, `KvFormat.dfy`, `KvRoundTrip.dfy`, `KvFile.dfy`, `KvRuns.dfy`): the serialiser and
  the loader byte by byte, with the loader's 32-bit checks, and runs of the table that pass through files.
- **The bump arena** (`MemArena.dfy`) and the byte loops (`LocalString.dfy`), on which the tables rest.
- **The sequential image archive** (`ImageArchive.dfy`): header, table of contents, aligned extents, flush, reader.
- **The growable vector** (`Vector.dfy`): a strided byte buffer and its amortised cost.

Every class method's postcondition equates the new abstract state and the result with a specification function of the
old state; the lemmas then say what those functions mean: a finite map, a filter, a round trip, a disjoint layout.
A `Valid()` predicate ties arrays and counters to the abstract state. Sizes and offsets are natural numbers; where the
code's 32-bit or 16-bit width matters (load tests, deletion counter, hashes, file fields, loader checks, indices
returned as `int`) the truncation is written out.

## Where the code differs from its documentation

The model follows the code. Each point names the lemma or contract that proves it, or says that it is part of the model.

- The header of the fixed-size table promises a limit of 0.75 of the capacity. The limit in effect is three quarters of
  the capacity, rounded up, except at capacity 2^31, where `capacity * 3` wraps and the limit is one quarter
  (`FullIff`). A full table also refuses to insert or update a key it already holds (`InsertFull`, `IndexIsStable`).
- The same header says dead entries are not reused. Inserting a key that is not live reuses its dead entry exactly when
  the table has room, the insertion does not rebuild the index first, and the tombstone is still indexed
  (`DeadEntryReusedIff`); otherwise an accepted insertion appends, as when a fresh table's only key is inserted, removed
  and inserted again (`ReinsertedAnew`).
- The header also says the index is rebuilt under high load. In the code, and so in the definition of `ShouldRebuild`,
  only the deletion count decides.
- `remove` of a key whose tombstone is still indexed succeeds and counts it again (`RemoveTombstone`). `deleted_cnt` is
  the net number of removals modulo 2^32 (`CounterBoundsTombstones`). It is an upper bound of the tombstones in every
  state of a run exactly when that number never reaches 2^32 in the run (`BoundHoldsIff`); `CounterWraps` is a run in
  which it does.
- `_KVTable_init` and `_KeyIndexTable_init` keep the arena's mark in 32 bits, so a failed initialisation undoes its
  allocations exactly when the cursor was below 2^32 (`NarrowMark`, `Init`).
- `KeyIndexTable_get_key(i)` asks whether the key string of entry `i` is live anywhere, not whether entry `i` is
  (`GetKey`); `ReinsertedAnew` gives a state with a dead entry whose key is live elsewhere.
- `KVTable_insert` may return NULL after it has destroyed the caller's table: exactly when memory had to be doubled and
  twice the memory does not hold the new pair behind the live ones (`InsertExact`). An empty table is destroyed exactly
  by a pair that twice its memory cannot hold (`FirstInsertDestroysIff`). NULL for an empty key or value leaves the table
  alone.
- `KVTable_compact` can fail only on a table loaded from a file and not grown since (`CompactExact`). If no entry is dead
  it fails exactly when the data filled the file's data section to the last byte, so that the last value's terminator
  was cut off (`CompactAfterReload`), which happens (`CompactCanFail`).
- The file format stores key lengths in 16 bits. Loading preserves all lookups if and only if every live key is shorter
  than 2^16 bytes (`RoundTripMeaning`).
- A flush of the image archive spares the entries of all runs exactly when the writer's memory is just header and table
  of contents, or the archive has no slots (`FlushSparesIff`). It also moves the file position, so that what is written
  afterwards lies where the table of contents says exactly when nothing had been written before (`WriteAfterFlush`).
- The header checksum an archive stores is that of the header with a file size of zero, not of the header in the file
  (`ArchiveReads`).
- `hash_index_table_insert` signals a full index with a non-negative number (`InsertSlot`). `FreeSlotExists` shows that
  no caller ever meets that case.

## Model

| member | source | states |
|---|---|---|
| Bits.PowerOf2Iff | include/align.h:9-12 | the bit test accepts exactly the powers of two |
| Bits.MaskIsRemainder | kv/kvtable_static/hash_index.h:66-75 | masking with size minus one is the remainder, clearing those bits rounds down to a multiple |
| Bits.AlignOffsetLeast | include/align.h:5-7 | alignment yields the least multiple not below the offset |
| Bits.AlignMonotone | include/align.h:5-7 | alignment preserves order |
| Bits.BitwiseOps | kv/kvtable_static/hash_fn.h:23-31 | the modelled `&`, `& ~` and `^` work bit by bit |
| Bits.BitsDecide | kv/kvtable_static/hash_fn.h:23-31 | numbers with the same bits are equal, so those laws determine the operators |
| Bits.NextPow2Least | kv/kvtable/kv_ser.c:166-169 | the `clz` expression is the least power of two not below its argument, on all inputs where C defines it |
| Fnv.ComputeHash32 | kv/kvtable_static/hash_fn.h:23-31 | the loop folds the 32-bit FNV-1a step over the key from the left |
| Fnv.KnownValues | kv/kvtable_static/hash_fn.h:23-31 | the published 32-bit FNV-1a values of the empty string and of "a" |
| HashIndex.ProbesVisitOnce | kv/kvtable_static/hash_index.h:66-76 | as many masked probes as there are slots visit every slot exactly once |
| HashIndex.FindDecides | kv/kvtable_static/kvtable_priv.h:107-130 | stopping at the first empty slot never misses an indexed entry, and reports a miss exactly when no indexed entry matches |
| HashIndex.FreeSlotExists | kv/kvtable_static/hash_index.h:66-78 | with fewer entries than slots every probe sequence meets an empty slot: the fall-through return is unreachable |
| HashIndex.PutFirstEmpty | kv/kvtable_static/hash_index.h:66-76 | insertion writes the first empty slot at or after the hash, modulo the size, and no other |
| HashIndex.PutChained | kv/kvtable_static/hash_index.h:69-73 | inserting keeps every chain unbroken and adds just that entry |
| HashIndex.AppendChained | kv/kvtable_static/kvtable_priv.h:178-197 | appending an entry and indexing it keeps the invariant while entries number fewer than slots |
| HashIndex.InitSlots | kv/kvtable_static/hash_index.h:43-55 | error results for a null table or a bad size, otherwise all slots empty |
| HashIndex.InsertSlot | kv/kvtable_static/hash_index.h:57-79 | fills the first empty slot on the probe path; on a full table returns the non-negative home slot and changes nothing |
| HashIndex.InsertSlotCounted | kv/kvtable/hash_index.h:79-104 | the same with the used count checked first and bumped on success only |
| TombstoneTable.LocateDecides | kv/kvtable_static/kvtable_priv.h:107-135 | the internal lookup finds the one indexed entry with the key, live or dead, and nothing else |
| TombstoneTable.LookupDecides | kv/kvtable_static/kvtable.c:42-49 | the public lookup returns `i` exactly when entry `i` is live and has the key |
| TombstoneTable.FullIff | kv/kvtable_static/kvtable_priv.h:137-140 | the 32-bit load test holds exactly at the limit, and passing it leaves a free slot |
| TombstoneTable.RebuiltIsLive | kv/kvtable_static/kvtable_priv.h:147-161 | after each rebuild step the index holds exactly the live entries seen so far, chains unbroken |
| TombstoneTable.RebuildCorrect | kv/kvtable_static/kvtable_priv.h:147-161 | a rebuild keeps the invariant and the public lookup of every key, and indexes exactly the live entries |
| TombstoneTable.SameStoreSameLookup | kv/kvtable_static/hash_index.h:7-8 | the index is no source of truth: any two valid indices over one store answer alike |
| TombstoneTable.InsertCorrect | kv/kvtable_static/kvtable_priv.h:163-209 | insertion makes the key live at the returned index, which is its old index if it was live, and changes no other key; it is refused exactly when full, with nothing changed, or for a new key without storage, with no entry changed (whether a dead entry is reused: next row) |
| TombstoneTable.DeadEntryReusedIff | kv/kvtable_static/kvtable_priv.h:137-206 | inserting a key that is not live returns an old index exactly when the entries are below the limit, `deleted_cnt * 2` modulo 2^32 is below the number of entries, and the key's tombstone is indexed |
| TombstoneTable.InsertIndexes | kv/kvtable_static/kvtable_priv.h:141-174 | an accepted insertion drops other keys' tombstones from the index exactly when `deleted_cnt * 2` modulo 2^32 has reached the number of entries |
| TombstoneTable.RemoveIndexes | kv/kvtable_static/kvtable_priv.h:211-221 | a removal leaves the index as it is |
| TombstoneTable.ReinsertedAnew | kv/kvtable_static/kvtable_priv.h:163-221 | insert, remove and insert of one key in any fresh table leave entry 0 dead and the key live at index 1 |
| TombstoneTable.InsertFull | kv/kvtable_static/kvtable_priv.h:169 | a full table refuses every insertion, of live keys too, and changes nothing |
| TombstoneTable.InsertGrows | kv/kvtable_static/kvtable_priv.h:178-197 | the store grows by one entry exactly when the returned index is a new one |
| TombstoneTable.RemoveCorrect | kv/kvtable_static/kvtable_priv.h:211-221 | removal leaves the key dead and all others alone, and succeeds exactly when an entry with the key is indexed, tombstones included |
| TombstoneTable.KeysNeverChange | kv/key_index_table/kidxtbl_priv.h:157-190 | in every run an appended entry keeps its index and key |
| TombstoneTable.StaysLive | kv/key_index_table/kidxtbl_priv.h:140-208 | a live key stays live at its index through every run that does not remove it |
| TombstoneTable.IndexIsStable | kv/key_index_table/kidxtbl_priv.h:74-208 | after any such run, rebuilds included, lookup returns the same index, and so does repeated insertion unless the table is full, which refuses it |
| TombstoneTable.IndicesAreInjective | kv/key_index_table/kidxtbl.c:29-37 | two keys share an index exactly when they are the same key |
| TombstoneTable.FullForever | kv/kvtable_static/kvtable_priv.h:137-140 | once full, a table stays full in every run |
| TombstoneTable.StepCounts | kv/kvtable_static/kvtable_priv.h:205-220 | each operation changes the counter by successful removals minus revivals, and the tombstones by no more |
| TombstoneTable.CounterBoundsTombstones | kv/kvtable_static/kvtable_priv.h:205-220 | in every run the net number of removals bounds the tombstones and the counter equals it modulo 2^32 |
| TombstoneTable.BoundHoldsIff | kv/kvtable_static/kvtable_priv.h:205-220 | the counter is at least the number of tombstones in every state of a run exactly when the net number of removals stays below 2^32 throughout |
| TombstoneTable.RemoveTombstone | kv/kvtable_static/kvtable_priv.h:211-221 | removing an indexed tombstone succeeds and changes only the counter |
| TombstoneTable.CounterWraps | kv/kvtable_static/kvtable_priv.h:211-221 | 2^32 removals of one live key leave the counter at zero beside one more tombstone |
| StaticTable.LookupIsGet | kv/kvtable_static/kvtable.c:42-49 | lookup in the table is lookup in the map it represents |
| StaticTable.InsertIsUpdate | kv/kvtable_static/kvtable_priv.h:163-209 | insertion below the limit is a map update and returns the index where the key is then live with that value; at the limit it changes nothing |
| StaticTable.RemoveIsDelete | kv/kvtable_static/kvtable_priv.h:211-221 | removal deletes the key from the map and returns the index of the indexed entry with the key; if there is none it changes nothing and the key was not in the map |
| StaticTable.RunRefinesMap | kv/kvtable_static/kvtable_priv.h:107-222 | over every run, with automatic rebuilds, all lookups answer as a finite map does, which stops accepting insertions when the table is full |
| StaticTable.AcceptsUpToLimit | kv/kvtable_static/kvtable_priv.h:137-140 | a run with no more insertions than free entries has all of them accepted |
| StaticTable.RowMatches | kv/kvtable_static/kvtable_priv.h:116-124 | the slot test accepts exactly the appended entries with this hash and key |
| StaticTable.ProbeForKey | kv/kvtable_static/kvtable_priv.h:107-130 | the probe loop over the arrays returns what the specified search finds |
| StaticTable.RebuildIndex | kv/kvtable_static/kvtable_priv.h:147-161 | the rebuild loop never fails and yields the specified index |
| StaticTable.AppendKey | kv/kvtable_static/kvtable_priv.h:179-196 | the new row holds the key, the index the new entry, and indexing cannot fail |
| StaticTable.StoreValue | kv/kvtable_static/kvtable_priv.h:199-206 | the row holds the value and is in use; tells whether it was a tombstone |
| StaticTable.KVTable.Maintain | kv/kvtable_static/kvtable_priv.h:171-174 | rebuilds exactly when the deletion test says so; what that test means is fixed by DeadEntryReusedIff and InsertIndexes |
| StaticTable.KVTable.Insert | kv/kvtable_static/kvtable_priv.h:163-209 | arrays, counters and result follow one insertion step, whose result, map, index and counter the lemmas above determine |
| StaticTable.KVTable.Remove | kv/kvtable_static/kvtable_priv.h:211-221 | arrays, counters and result follow one removal step |
| StaticTable.KVTable.Lookup | kv/kvtable_static/kvtable.c:42-49 | the row returned is that of the live key and holds its value; none for dead or absent keys |
| StaticTable.CarveExact | kv/kvtable_static/kvtable_priv.h:53-81 | the five blocks have 1, 4, 8, key size and value size bytes an entry, stacked at aligned offsets, and are had exactly when none is empty and all fit |
| StaticTable.KVTable.Init | kv/kvtable_static/kvtable_priv.h:41-104 | an empty valid table of the rounded capacity with five blocks taken from the arena, or an error with the cursor set to its old value modulo 2^32, which restores the arena exactly for cursors below 2^32 |
| LocalString.MemCpy | kv/kvtable_static/local_string.h:10-19 | the row holds the source, every other row is untouched |
| LocalString.MemCmp | kv/kvtable_static/local_string.h:20-30 | zero exactly for equal bytes, else the difference at the first mismatch |
| LocalString.StringUnique | kv/key_index_table/local_string.h:31-48 | at most one NUL-terminated string starts at an offset |
| LocalString.StrLen | kv/key_index_table/local_string.h:40-48 | the length of the string at the offset |
| LocalString.StrCmp | kv/key_index_table/local_string.h:31-39 | zero exactly when the two strings are equal |
| MemArena.RunSafe | include/mem/mem_arena.c:34-92 | over every run of allocations, rollbacks and resets the live blocks are aligned, inside the buffer and pairwise disjoint |
| MemArena.RunNext | include/mem/mem_arena.c:34-92 | a run is its operations one after the other |
| MemArena.AllocatesAbove | include/mem/mem_arena.c:34-59 | a new block starts at or above the cursor, which ends at its end; a failure changes nothing |
| MemArena.AllocExact | include/mem/mem_arena.c:34-64 | an allocation takes the least aligned offset from the cursor on and is counted; it fails, changing nothing, exactly for zero bytes or when no aligned offset has room |
| MemArena.SetCurExact | include/mem/mem_arena.c:78-85 | moving the cursor back gives up exactly the blocks that reach beyond it; moving it forward does nothing |
| MemArena.ResetIsFresh | include/mem/mem_arena.c:87-92 | after a reset cursor, count and blocks are those of a new arena, and the first allocation is at offset zero |
| MemArena.AllocAllExact | include/mem/mem_arena.c:45-69 | several allocations all succeed exactly when none is empty and their aligned stack fits, and then are that stack |
| MemArena.RollbackRestores | include/mem/mem_arena.c:78-85 | setting the cursor back to a mark restores cursor, free space and live blocks after any allocations and any rollbacks to later marks; only the allocation count stays |
| MemArena.NarrowMark | kv/kvtable_static/kvtable_priv.h:53-81 | a mark kept in 32 bits restores the arena exactly when the cursor was below 2^32 |
| MemArena.MemArena.Alloc | include/mem/mem_arena.c:45-64 | one allocation step, safety kept, NULL on exhaustion or zero size |
| MemArena.MemArena.AllocArr | include/mem/mem_arena.c:66-69 | the same for count times element size |
| MemArena.MemArena.SetCur | include/mem/mem_arena.c:78-85 | the cursor moves back, never forward, and the blocks above it are given up |
| MemArena.MemArena.Reset | include/mem/mem_arena.c:87-92 | cursor, count and blocks are cleared |
| KeyIndexTable.WriteString | kv/key_index_table/kidxtbl_priv.h:182-183 | the forward byte copy, also within one buffer: every byte it leaves, the terminator, and the bytes around untouched; the string itself whenever the copy is exact |
| KeyIndexTable.CopyExactIff | kv/key_index_table/local_string.h:10-19 | a forward copy to a later place in the same buffer is exact if and only if the string repeats itself at that distance, as it does when it ends before |
| KeyIndexTable.StoredFrame | kv/key_index_table/kidxtbl_priv.h:160-187 | stored keys depend only on bytes below the cursor they were stored under |
| KeyIndexTable.ProbeForKey | kv/key_index_table/kidxtbl_priv.h:74-102 | the probe loop over records and key strings returns what the specified search finds |
| KeyIndexTable.RebuildIndex | kv/key_index_table/kidxtbl_priv.h:124-138 | the rebuild loop never fails and yields the specified index |
| KeyIndexTable.AppendKey | kv/key_index_table/kidxtbl_priv.h:165-189 | index, record and key bytes of the new entry are in place, earlier keys and offsets untouched |
| KeyIndexTable.RoomIff | kv/key_index_table/kidxtbl_priv.h:160-164 | a key finds storage exactly when its length and a terminator fit behind the next aligned offset |
| KeyIndexTable.CarveExact | kv/key_index_table/kidxtbl_priv.h:40-54 | the two blocks have 12 and 4 bytes an entry and are had exactly when both fit |
| KeyIndexTable.KeyIndexTable.InsertNew | kv/key_index_table/kidxtbl_priv.h:157-190 | appends with the key in a fresh block at cursor minus length minus one, or leaves table and arena as they were |
| KeyIndexTable.KeyIndexTable.Insert | kv/key_index_table/kidxtbl_priv.h:140-196 | one insertion step; the arena grows only for a new key; earlier offsets and all bytes below the old cursor stay |
| KeyIndexTable.KeyIndexTable.Remove | kv/key_index_table/kidxtbl_priv.h:198-208 | one removal step; no key offset changes |
| KeyIndexTable.KeyIndexTable.Lookup | kv/key_index_table/kidxtbl.c:29-37 | the index of the live entry, or not found |
| KeyIndexTable.KeyIndexTable.GetKeyRaw | kv/key_index_table/kidxtbl.c:58-65 | for every appended entry, live or not, the offset leads to exactly the inserted key, NUL-terminated |
| KeyIndexTable.KeyIndexTable.GetKey | kv/key_index_table/kidxtbl.c:46-56 | non-NULL exactly when the entry's key is live, and then exactly that key |
| KeyIndexTable.KeyIndexTable.Init | kv/key_index_table/kidxtbl_priv.h:30-70 | an empty valid table of the rounded capacity, or an error with the cursor set to its old value modulo 2^32, which restores the arena exactly for cursors below 2^32 |
| KvModel.PairWithin | kv/kvtable/kvtable_priv.h:204-216 | each key and each value with its terminator has its own stretch of the arena, in order, below the cursor |
| KvModel.LiveLayoutShrinks | kv/kvtable/kv.c:25-45 | the live pairs laid out alone end no later than the whole store |
| KvModel.LiveInOrder | kv/kvtable/kv.c:33-44 | the copied pairs are in the order of the store |
| KvModel.LiveCounts | kv/kvtable/kv.c:33-44 | there are exactly as many as live entries |
| KvModel.SlackSuffices | kv/kvtable/kv.c:74-85 | whenever the memory test is false, both aligned allocations of length plus one succeed |
| KvModel.SlackIsTight | kv/kvtable/kv.c:74-85 | a pair takes at most the slack, and all of it exactly when the cursor is one past an aligned offset and the key length is aligned |
| KvModel.LocateDecides | kv/kvtable/kvtable_priv.h:140-174 | lookup finds the one live pair with the key although dead pairs with that key stay indexed |
| KvModel.AppendReady | kv/kvtable/kvtable_priv.h:191-248 | with a free entry the index insertion finds a slot, and appending a key that is not live keeps the invariant |
| KvModel.CopyExact | kv/kvtable/kv.c:25-45 | a copy holds exactly the live pairs in order, and fails exactly when their layout exceeds the memory |
| KvModel.CompactExact | kv/kvtable/kv.c:54-66 | compaction yields the live pairs in the old order; it succeeds exactly when they fit, hence always on tables not loaded from a file |
| KvModel.GrownInv | kv/kvtable/kv.c:68-97 | growth is due exactly when all entries are used or fewer than eight bytes would be spare; it always succeeds, keeps the live pairs and leaves a free entry |
| KvModel.GrownDimensions | kv/kvtable/kv.c:174-183 | the capacity doubles exactly when all entries are used, the memory exactly when fewer than eight bytes would be spare |
| KvModel.MeaningIsMap | kv/kvtable/kv.c:162-200 | a state with at most one live pair per key is a finite map |
| KvModel.LookupIsGet | kv/kvtable/kv.c:116-139 | lookup is lookup in the map |
| KvModel.RemoveIsDelete | kv/kvtable/kv.c:140-160 | removal deletes the key and returns the index of its live entry; -11 with nothing changed if it has none |
| KvModel.RemoveExact | kv/kvtable/kv.c:140-160 | the key's live entry is dead afterwards, every other entry, index, cursor and memory as before |
| KvModel.InsertExact | kv/kvtable/kv.c:162-200 | a returned table is exactly the updated map; the exact conditions of both NULL results, in terms of lengths, cursor and memory |
| KvModel.InsertShape | kv/kvtable/kv.c:162-200 | capacity, memory and entries of the returned table: what doubles when, and that it holds all pairs, or after growth the live ones, with the key's old pair dead and the new one last |
| KvModel.FirstInsertDestroysIff | kv/kvtable/kv.c:174-197 | an insertion into an empty table destroys it exactly when twice its memory does not hold the pair |
| KvModel.StepRefines | kv/kvtable/kv.c:54-200 | each operation acts on the table as on the map; the handle is lost exactly by an insertion that destroys the table; a compaction that fits leaves just the live pairs |
| KvModel.RunEnds | kv/kvtable/kv.c:162-200 | a run ends early exactly at its first insertion that destroys the table, all operations before it answered |
| KvModel.RunRefinesMap | kv/kvtable/kv.c:25-200 | over every run of insertions, removals, lookups and compactions all answers are those of a finite map while the handle lasts, with at most one live pair per key throughout |
| KvTable.StoredAppend | kv/kvtable/kvtable_priv.h:236-243 | writing a pair behind the layout keeps every stored pair and terminator |
| KvTable.EntryLookup | kv/kvtable/kvtable_priv.h:140-174 | over any records whose keys lie inside the arena, loaded ones included, the probe loop returns what the specified search finds |
| KvTable.RecHitsAre | kv/kvtable/kvtable_priv.h:157-168 | in a table that holds pairs the loop's test accepts exactly the live pairs with the key |
| KvTable.AllocatePair | kv/kvtable/kvtable_priv.h:204-216 | both blocks at the specified offsets exactly when the pair fits, else the cursor as before |
| KvTable.StorePair | kv/kvtable/kvtable_priv.h:220-243 | index, record, bytes and terminators of the new pair are in place, all earlier ones untouched |
| KvTable.KVTable.Create | kv/kvtable/kv.c:9-21 | NULL exactly for no memory or a capacity that is no power of two, else an empty table |
| KvTable.KVTable.Lookup | kv/kvtable/kv.c:116-139 | index and location of the live key's value bytes, or not found |
| KvTable.KVTable.Remove | kv/kvtable/kv.c:140-160 | records and result follow one removal step, whose result RemoveExact determines |
| KvTable.KVTable.RawInsert | kv/kvtable/kvtable_priv.h:191-248 | appends exactly when the pair fits; otherwise table and cursor are restored |
| KvTable.KVTable.CopyFrom | kv/kvtable/kv.c:25-45 | the copy loop produces the specified copy and fails exactly when it does |
| KvTable.Compact | kv/kvtable/kv.c:54-66 | the compacted copy with the old table gone, or NULL with the old table untouched |
| KvTable.Grow | kv/kvtable/kv.c:174-191 | the caller's table exactly when an entry is free and eight bytes are spare, else a doubled copy that replaces it |
| KvTable.Insert | kv/kvtable/kv.c:162-200 | one insertion step, saying in each outcome what became of the caller's table; it is the table returned exactly when an entry is free and eight bytes are spare |
| Packed.LeTruncates | kv/kvtable/kv_ser_priv.h:26-50 | a field stores its value modulo its range |
| Packed.LeDigits | kv/kvtable/kv_ser_priv.h:26-50 | byte `k` of a stored number is its digit `k` to base 256, least significant first |
| Packed.EncodePlaces | kv/kvtable/kv_ser_priv.h:26-50 | each field of a packed structure lies behind those before it, for any fields around it |
| Packed.DecodePlaces | kv/kvtable/kv_ser_priv.h:26-50 | each field is read from its own stretch |
| Packed.DecodeEncode | kv/kvtable/kv_ser_priv.h:26-50 | reading a packed structure back gives every field modulo its range |
| Packed.Store | kv/kvtable/kv_ser.c:49-66 | storing a structure field by field puts its encoding at the offset and leaves the rest |
| KvFormat.StructSizes | kv/kvtable/kv_ser_priv.h:26-50 | the packed sizes 32, 16 and 8 the loader checks |
| KvRoundTrip.HeaderReadsBack | kv/kvtable/kv_ser.c:49-60 | all ten header fields of a written file, as numbers |
| KvRoundTrip.WrittenFile | kv/kvtable/kv_ser.c:61-79 | every other byte of it: entry table, data, the gap with the file's earlier bytes or zeros, checksum and end mark |
| KvRoundTrip.LoadAcceptsIff | kv/kvtable/kv_ser.c:193-229 | the loader accepts a file if and only if marks, sizes, offsets, end mark and checksum are right and there is some data |
| KvRoundTrip.ImageAccepted | kv/kvtable/kv_ser.c:195-217 | every file the serialiser writes passes the loader's header, offset, footer and checksum tests, and keeps the loader within the file and the domain of its rounding exactly unless it has one entry |
| KvRoundTrip.LoadOfImage | kv/kvtable/kv_ser.c:172-274 | loading it gives back records, data and a fresh index of the next power of two, key lengths cut to 16 bits |
| KvRoundTrip.IndexOfChained | kv/kvtable/kv_ser.c:236-268 | rebuilding finds a slot for every entry at any sufficient capacity, so the ignored insertion failure cannot happen |
| KvRoundTrip.RoundTripReads | kv/kvtable/kv_ser.c:172-274 | the loaded table holds the state, key and value of every entry, dead ones included |
| KvRoundTrip.SameLookups | kv/kvtable/kv_ser.c:172-274 | with short live keys every lookup finds the same entry and value bytes |
| KvRoundTrip.LongKeyIsLost | kv/kvtable/kv_ser_priv.h:46 | a live key of 2^16 bytes or more is found before and not after |
| KvRoundTrip.RoundTripMeaning | kv/kvtable/kv_ser.c:12-274 | serialise then load preserves every lookup if and only if all live keys are shorter than 2^16 |
| KvRoundTrip.SerialiseAgain | kv/kvtable/kv_ser.c:12-83 | serialising the loaded table into the same prior file reproduces the file byte for byte |
| KvFile.Serialise | kv/kvtable/kv_ser.c:12-83 | the file bytes, field by field, from records, arena bytes and the file's earlier content |
| KvFile.ValidIsWritable | kv/kvtable/kv_ser.c:16-30 | every valid table object meets the assumptions of the round-trip theorems, given two entries and a file below 2^32 |
| KvFile.WriteImage | kv/kvtable/kv_ser.c:18-79 | the same on arrays: exactly the specified image |
| KvFile.LoadEntries | kv/kvtable/kv_ser.c:236-268 | the entry loop yields the specified records and index |
| KvFile.CreateLoad | kv/kvtable/kv_ser.c:172-274 | NULL exactly when a check fails or there is no data, else records, index, bytes and cursor as specified |
| KvFile.LoadedIsTable | kv/kvtable/kv_ser.c:219-268 | if all live keys are short, whatever the dead ones, the loaded table satisfies the growing table's invariant with the same pairs, dead keys cut, at the same places: all later operations keep their guarantees |
| KvFile.SaveAndLoad | kv/kvtable/kv_ser.c:12-274 | on objects: serialising any such table with two entries or more and a file below 2^32, then loading, always yields a valid table, the reloaded one |
| KvRoundTrip.ReloadMeans | kv/kvtable/kv_ser.c:219-268 | the reloaded table satisfies the invariant and is the same finite map |
| KvRoundTrip.CompactAfterReload | kv/kvtable/kv_ser.c:18-30 | compacting a reloaded table without dead entries fails exactly when its data size is a multiple of the alignment |
| KvRoundTrip.CompactCanFail | kv/kvtable/kv.c:54-66 | a table of two pairs for which it fails |
| KvRuns.StepRefines | kv/kvtable/kv_ser.c:12-274 | each operation acts on the table as on the map; a passage through a file yields the loaded table with the same entries, dead keys cut |
| KvRuns.RunEnds | kv/kvtable/kv.c:162-200 | such a run, too, ends early exactly at its first insertion that destroys the table |
| KvRuns.RunRefinesMap | kv/kvtable/kv.c:25-200 | over every run of insertions, removals, lookups, compactions and passages through files all answers are those of a finite map while the handle lasts |
| ImageArchive.InitLogged | bipf/img_arc.h:174-204 | a new writer has its header in place, its cursor behind the table of contents and no entries |
| ImageArchive.DataKeepsLog | bipf/img_arc.h:231-253 | writing data disturbs no recorded entry, leaves the cursor aligned and the bytes at the old cursor |
| ImageArchive.WriteKeepsLog | bipf/img_arc.h:274-313 | one write records exactly the entry at the old cursor and returns its number, or reports a full table or a zero checksum with nothing recorded; what a recorded slot holds is fixed by SlotIs |
| ImageArchive.SlotIs | bipf/img_arc.h:255-272 | a recorded slot read as numbers: its number, type, flags and size, then offset and checksum |
| ImageArchive.WriteFileExact | bipf/img_arc.h:245-250 | every byte of the file after a write at a position, with zeros where it grew over a gap |
| ImageArchive.Refusals | bipf/img_arc.h:206-229 | counts and cursors out of range and a full table are refused with their codes and nothing changed |
| ImageArchive.RunKeepsLog | bipf/img_arc.h:274-313 | over every run, failed writes included, the writes return the expected numbers and codes, and the recorded entries are exactly the expected ones: aligned, past the table of contents, in order, disjoint, on disk and described by the table |
| ImageArchive.FlushCompletes | bipf/img_arc.h:315-345 | a flush fails exactly for a zero checksum, changing nothing; with exact memory the file holds header, size, table, the table's own checksum, and every entry's bytes in aligned, ordered and disjoint extents |
| ImageArchive.ArchiveReads | bipf/img_arc.h:85-123 | the flushed file read as numbers: every header field, the table's checksum, the header's checksum as of a file size of zero, and every slot |
| ImageArchive.ReadsBack | bipf-rd.c:36-48 | the reader gets every recorded entry byte for byte; an empty one exactly when the file reaches its offset |
| ImageArchive.ReadEntryIff | bipf-rd.c:38-45 | the reader finds nothing exactly behind the last slot or when the extent leaves the file, else the extent's bytes |
| ImageArchive.ArchiveRoundTrip | bipf-wr.c:29-102 | initialise, write anything, flush successfully, read: the file is a complete archive of exactly the expected entries, aligned, ordered and disjoint; header and slots read as the numbers written; and the reader gets each entry, empty ones as far as the file reaches |
| ImageArchive.FlushSparesIff | bipf/img_arc.h:315-345 | for every memory and file a writer may start from: after every run of writes and every flush that succeeds all recorded entries are still on disk, if and only if the memory is exactly header and table or there are no slots |
| ImageArchive.LargerMemoryDestroys | bipf/img_arc.h:336-341 | with larger memory and a slot, whatever it holds, some one-byte entry is lost by the flush |
| ImageArchive.WriteAfterFlush | bipf/img_arc.h:274-345 | after a successful flush with a slot left: data of any length goes where the cursor says, and every entry then recorded has its bytes where its slot says, exactly when nothing was written before |
| ImageArchive.ImageFile.Open | bipf/img_arc.h:174-204 | one initialisation step on the caller's memory, or an error with nothing changed |
| ImageArchive.ImageFile.WriteData | bipf/img_arc.h:231-253 | one data step on file, position and cursor |
| ImageArchive.ImageFile.Write | bipf/img_arc.h:274-313 | one write step on memory, file, cursor and counts, with its result |
| ImageArchive.ImageFile.Flush | bipf/img_arc.h:315-345 | one flush step on memory and file, with its result |
| Vector.PushLaw | vector/c_std_vector/vector.c:122-134 | a push returns the new size, puts the element last, keeps all others, and doubles the capacity, from nothing to 16, exactly when it was used up |
| Vector.PopLaw | vector/c_std_vector/vector.c:135-141 | a pop returns the new size, one less, and keeps all other elements; -1 and no change on an empty vector |
| Vector.PopUndoesPush | vector/c_std_vector/vector.c:122-141 | a pop after a push restores the elements |
| Vector.PopsUndoPushes | vector/c_std_vector/vector.c:122-141 | so do as many pops as pushes, over any growth |
| Vector.ClearReserveLaw | vector/c_std_vector/vector.c:142-154 | clearing leaves no element and the capacity; reserving leaves the elements and returns the larger of old capacity and request |
| Vector.MovesAmortised | vector/c_std_vector/vector.c:122-145 | over every run of pushes, pops and clears from an empty vector of any capacity, reallocation moves fewer than two elements per push |
| Vector.MovesTight | vector/c_std_vector/vector.c:124-127 | runs of any length come within three moves of that bound |
| Vector.ChunksAt | vector/c_std_vector/vecintrnl.inl:34-36 | element `k` is the stretch of bytes at `k` strides |
| Vector.Vector.Grow | vector/c_std_vector/vector.c:26-32 | a larger buffer with the same elements |
| Vector.Vector.Push | vector/c_std_vector/vector.c:122-134 | the element is appended to the sequence, with doubling from 16 when full |
| Vector.Vector.Pop | vector/c_std_vector/vector.c:135-141 | the last element goes, or -1 on an empty vector |
| Vector.Vector.Clear | vector/c_std_vector/vector.c:142-145 | no elements, same capacity |
| Vector.Vector.Reserve | vector/c_std_vector/vector.c:147-154 | at least the capacity asked for, elements unchanged |
| Vector.Vector.At | vector/c_std_vector/vecraw.inl:11-19 | the bytes of the element, or nothing past the end |

## Left out

- KeyIndexTable.KeyIndexTable.Init: arenas up to 2^32 bytes only, because key offsets are 32-bit there; capacities whose entry numbers would not fit 32 signed bits need more memory than that and fail.
- KeyIndexTable.KeyIndexTable.Insert: the key string may lie anywhere in the arena except where the copy into its new block would read its own output and not repeat the string (`CopyExactIff`); the table then stores another key, which is not modelled further.
- StaticTable.KVTable.Init: capacities up to 2^31, since rounding up is undefined in C beyond; the key and value sizes stay natural numbers, and the arrays are typed arrays whose bytes are only accounted for in the arena; their zero fill is not read by any operation.
- Bits.NextPow2Least: excludes the argument 1 (`clz(0)`) and arguments above 2^31, where C leaves the result undefined; so a file with one entry is written but its load is not modelled.
- KvRoundTrip.LoadOfImage: excludes the file with one entry, like the rounding it uses.
- KvRoundTrip.RoundTripMeaning: for tables with a live key of 2^16 bytes or more it says that lookups change, and `RoundTripReads` what the loaded records hold, but no later operation on such a loaded table is modelled except lookup (`EntryLookup`).
- KvRuns.RunRefinesMap: a table goes through a file only if it has two entries or more, short live keys and a file below 2^32; the insertion of arguments that lie in the table itself is left out as below.
- KvFile.CreateLoad: requires the reads of the loader to stay inside the file, which the loader does not check; hostile files are not modelled.
- ImageArchive.ReadsBack: the reader is modelled for slots that lie in the file, since the program reads the slot before any check; offsets are below 2^64 as the cursor's type demands. Slots never written hold whatever the memory held.
- ImageArchive.ArchiveRoundTrip: the stored header checksum is that of the header before the file size is set (`ArchiveReads`), so it does not check the header that was written; no reader in the repository looks at it. A file may also end before the recorded size, which is the aligned cursor.
- MemArena.MemArena.Alloc: exhaustion returns NULL as the code after the assertion does; sums and products of `size_t` do not overflow.
- Null handles, null buffers and null fields: their guards return an error before any work.
- Failures of `malloc`, `mmap`, `ftruncate`, `lseek` and `write`, and partial writes: a file is a byte sequence with a position and a write is complete. `KVTable_create` therefore fails only for its arguments.
- Branches that undo an insertion after the index reported an error: the index cannot report one there, which is proved, so they have no effect to model.
- The CRC-32 code is not in the repository; it is any deterministic function of the bytes, reduced to 32 bits.
- Keys or values passed in buffers that lie inside the growing table's own arena: the arguments are values here.
- `_KVTable_reserve_memory`, `KVTable_get`, the size and capacity getters, `deinit` functions other than destroying a table: no behaviour beyond a field.
- `_KVTable_get_total_mem_alloc_size`: unused, and its first two terms do not depend on the capacity.
- The 64-bit hash, `kv/kvidxtbl`, `kv/kvtable/kv_ser copy.c` and the commented-out serialiser: not used by the tables modelled.
- Vector constructors from an array, the C++ wrappers, `vector/algo.h`, `include/cstr.h`, the interactive programs and their messages.

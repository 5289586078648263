# LibDASICS, verified model

LibDASICS guards memory with sixteen hardware bound registers and makes them look like any number
of bounds: a table keyed by handle holds every bound, and a load or store that misses the registers
faults into code that looks the bound up and loads it into some slot. This project models that
machinery, the hash table under it, the memory routines and the formatter it uses, and the two
clients that take and give back bounds, and proves what they are for.

| part | files |
|---|---|
| bits, registers, packed fields | `Arith`, `Bits`, `Machine`, `Words`, `Bounds` |
| the bound-register cache over values, whole runs of it, where authority comes from, and runs that fit the slots | `BoundModel`, `BoundRuns`, `BoundOrigins`, `BoundRoom` |
| the cache as the library keeps it: CSRs, handle map, table | `Udasics` |
| uthash, linked in place: nodes and chains, expansion, orders, mergesort, the table | `Nodes`, `Expansion`, `Order`, `ListSort`, `Uthash` |
| `dasics_memset` and `dasics_memcpy` | `Memory`, `Memset`, `Memcpy` |
| the coverage check | `Coverage` |
| allocation records of untrusted libraries | `FuncMemModel`, `FuncMem` |
| jump bounds; cross-library calls and returns | `Jumps`, `CrossModel`, `CrossRuns`, `Cross` |
| integer printing and formatted output | `Itoa`, `Printf` |

Where the code changes things step by step the model does too: classes with fields, arrays and
linked nodes, loops with invariants. Each such class has a function `Abs()` that gives its state as
a value; its methods are proved to do to that value exactly what a function over values says, and
the theorems over runs are about those functions. `dafny verify dfyconfig.toml` checks everything.

Choices made outside the code are parameters: what `rand()` returns, what `malloc` and `realloc`
return, the sorted array `qsort` leaves, the hash function, the library descriptors of a call. The
control and status registers are fields.

## What is proved, in short

* **Unlimited bounds.** From any coherent state, for any run of allocations, frees, queries, loads
  and stores, and whatever victims are picked, the sixteen slots and the fault handler show their
  user exactly what a machine with unlimited registers shows. Coherence survives every run. A refill
  keeps coherence exactly when the bound was in no other slot, so the miss that causes it is what
  makes it safe. `dasics_libcfg_free_all` frees only what is cached; runs with it show what the
  unlimited machine shows when that is told which handles each free-all found in the slots.
* **Confinement.** A bound grants exactly the doublewords its range reaches into, for the rights
  asked for. Over any run an access is granted only by a request that asked for it and was not freed
  since, or by a bound that was there at the start; without free-all exactly then.
* **Sixteen bounds.** While all live bounds are cached and no allocation finds sixteen of them, it
  need not be told: free-all frees everything and no victim ever shows. Sixteen is the exact limit:
  the victim of one more allocation can be found out if and only if sixteen bounds were live.
* **The start state.** The initialiser `{-1}` sets one element of the handle map, the rest are 0.
  Registration leaves a good state exactly if the map held -1 for every slot left free. With the map
  as initialised, freeing handle 0 leaves its bound in its slot, still granting what it granted,
  exactly if that slot is neither 0 nor 1.
* **uthash.** The integrity check of the authors, strengthened, is an invariant of every add,
  ordered add, delete, expansion and sort; lookup is exact; the bottom-up mergesort, with its
  32-bit run length, is the stable sort; expansion computes the ideal chain length as a ceiling and
  bounds every new chain.
* **Memory routines.** `dasics_memset`, entered in the middle of its loop with a base before the
  region, and `dasics_memcpy`, in all four of its loops, are the byte loops, for all alignments and
  lengths. Where a region ends with the address space the end address wraps to 0 and each loop stops
  after its first trip; how much is then done is stated, and when it is everything.
* **Coverage.** Sorting and the greedy loop answer 1 exactly if the collected bounds cover
  `(lo, hi]`, wrap of `lo + 1` included; the low end itself is not checked.
* **Allocation records.** Each call changes the record of its own address and that record's bound, and
  opens exactly the block asked for. Over any run of `malloc`, `realloc` and `free` on blocks in use, every
  record owns a live bound of its own that grants its whole block, the count is right, and the live
  bounds that belong to no record are the same as before. For null pointers the count goes wrong,
  and only for them; they also take away the bound with handle 0, exactly if it is live and the
  first free record was never used.
* **Calls and returns.** A call opens exactly the target's two ranges and the 64 KiB below the stack
  pointer. A return restores the return address of its matching call, whatever was
  called, allocated, freed, loaded or stored in between. It aborts exactly if that call found no jump
  slot free, or one of the call's bounds was freed in between, or a bound of the target's records is
  not there to be freed. Balanced calls and returns leave the bounds and jump slots that the
  allocations and frees between them alone would leave, except that handle 0 and jump slot 0 stay
  taken, because returns skip zeros.
* **Formatter.** What is written is a prefix of the untruncated rendering, cut to the buffer. A
  directive's padding is its digits modulo 256; what each directive prints and which arguments it takes
  is stated for each, and the text of a number is the only one it can be. Numbers read back as themselves except the least
  negative one and unsigned ones from 2^63 on. `%d` without `l` prints the argument as unsigned, so
  it is right exactly for non-negative ones.

Code and documentation disagree in two places, and the model follows the code. The user manual
(`README.md:59` in the repository) says `dasics_libcfg_get` answers -1 for an unknown handle; it
answers 0. The comment at `src/udasics/udasics.c:152` calls the checked span `[lo, hi]`; it is
`(lo, hi]`.

## Model

| member | source | states |
|---|---|---|
| Bits.MaskIsRemainder | include/uthash.h:433-436 | masking with a power of two less one is the remainder |
| Bits.FieldIsDifference | lib/string/memset.S:40 | masking with the bits from k up to n keeps a difference of remainders |
| Bits.ShiftIsQuotient | include/uthash.h:850 | shifting right divides by a power of two |
| Machine.MaskIsFloor | include/udasics.h:26-27 | on 64-bit words, masking the bits below k off rounds down to a multiple of 2^k; the masks of bounds, memset and memcpy are read through it |
| Words.ShiftIs | src/udasics/udasics.c:342-378 | the field of slot idx lies at bit 4 * idx |
| Words.SetField | src/udasics/udasics.c:376-378 | writing a slot's four-bit field sets it and changes none of the fifteen others |
| Words.ClearValid | src/udasics/udasics.c:421-422 | clearing a slot's V bit invalidates it and changes none of the fifteen others |
| Bounds.RequestedGrants | src/udasics/udasics.c:344-351 | an allocated bound grants each address of the requested range for exactly the rights asked for |
| Bounds.RequestedGrantsIff | src/udasics/udasics.c:344-351 | for all ranges and addresses: it grants exactly the doublewords the range reaches into, for exactly the rights asked for, unless rounding the upper end up wraps |
| Bounds.RequestedConfines | src/udasics/udasics.c:344-345 | so it grants nothing a doubleword or more outside the range |
| Bounds.RequestedRights | src/udasics/udasics.c:351-352 | it has its handle, the three low bits of the rights asked for, V, and nothing beyond the field |
| Bounds.InvalidGrantsNothing | src/udasics/udasics.c:254-262 | an entry without V grants nothing |
| Bounds.WrappedGrantsNothing | src/udasics/udasics.c:344-345 | when rounding the upper end up wraps, the bound grants nothing |
| BoundModel.AllocIs | src/udasics/udasics.c:347-395 | allocation puts the new bound last into the table and into the first free slot, or the one rand() picks if none is free; no other slot changes, and its handle was not live |
| BoundModel.AllocCoherent | src/udasics/udasics.c:339-396 | allocation keeps coherence for every victim |
| BoundModel.FreeCoherent | src/udasics/udasics.c:398-429 | free keeps coherence |
| BoundModel.RefillCoherentIff | src/udasics/udasics.c:252-281 | a refill keeps coherence if and only if the loaded bound is in no other slot |
| BoundModel.MissRefillCoherent | src/udasics/udasics.c:298-321 | a refill after a genuine miss keeps coherence |
| BoundModel.RefillIs | src/udasics/udasics.c:258-276 | a refill puts the first live bound in application order that grants the access into the slot rand() picks and changes no other slot; without such a bound nothing changes |
| BoundModel.EvictOne | src/udasics/udasics.c:415-426 | clearing only the first matching slot evicts the handle exactly if no other slot holds it |
| BoundModel.FreeRemovesOnly | src/udasics/udasics.c:398-429 | the code is 0 exactly if a live bound went, -1 exactly if nothing changed; afterwards the handle is neither live nor cached; every other bound keeps entry and slots |
| BoundModel.FreeAllIs | src/udasics/udasics.c:431-441 | free-all empties every slot and leaves exactly the bounds that no slot held, in their order |
| BoundModel.FreeAllEmptiesIff | src/udasics/udasics.c:431-441 | free-all frees everything exactly if everything was cached |
| BoundModel.RightsAfterFreeAll | src/udasics/udasics.c:431-452 | after a free-all a bound that was live answers with its rights if it was not cached, with 0 if it was |
| BoundModel.RightsAre | src/udasics/udasics.c:443-452 | the query answers the rights of a live handle and 0 for any other |
| BoundModel.UnregisterCoherentIff | src/udasics/udasics.c:105-116 | emptying the table without touching the slots is coherent exactly if no slot was in use |
| BoundRuns.AccessIffGranted | src/udasics/udasics.c:252-337 | a load or store succeeds after at most one refill if and only if some live bound grants it, whatever the victim; the live bounds do not change |
| BoundRuns.StepRefines | src/udasics/udasics.c:252-452 | every operation keeps coherence and has the effect and the answer of the unlimited machine |
| BoundRuns.RunRefines | README.md:11 | every run, with any victims, keeps coherence and shows what a run of unlimited registers shows that is told which handles each free-all found cached |
| BoundOrigins.GrantedHasOrigin | src/udasics/udasics.c:252-441 | confinement over runs: an access is granted only within the doublewords of a range asked for, with that right, by a request whose handle was not freed since, or by a bound live at the start and not freed |
| BoundOrigins.GrantedIffOrigin | src/udasics/udasics.c:252-429 | without free-all it is granted exactly then |
| BoundRuns.VictimsInvisible | src/udasics/udasics.c:366-370 | without free-all, runs that differ only in victims show the same, however many bounds are live |
| BoundRuns.FreeAllShowsVictims | src/udasics/udasics.c:431-441 | with free-all they need not: from every full cache two victims give different answers |
| BoundRoom.RoomIff | src/udasics/udasics.c:355-364 | with all live bounds cached there are at most sixteen, and a slot is free exactly if there are fewer |
| BoundRoom.SmallRunRefines | README.md:11 | from there, as long as no allocation finds sixteen bounds live, every run, free-alls included, shows what unlimited registers with a free-all that frees everything show |
| BoundRoom.SmallRunHidesVictims | src/udasics/udasics.c:366-370 | and its victims cannot be seen |
| BoundRoom.VictimHiddenIff | src/udasics/udasics.c:366-441 | the victim of one more allocation is hidden from every free-all and query if and only if fewer than sixteen bounds are live |
| BoundRuns.HandlesGrow | src/udasics/udasics.c:352 | over a run handles are handed out in increasing order, so none is handed out twice |
| Udasics.LibBounds.Alloc | src/udasics/udasics.c:339-396 | keeps validity (V bit set exactly where the map names a handle) and does to registers, map and table what the value model's allocation does; the result is the new handle |
| Udasics.LibBounds.FindVictim | src/udasics/udasics.c:355-370 | the first free slot, else the one rand() picks |
| Udasics.LibBounds.WriteRegisters | src/udasics/udasics.c:372-393 | the writes for one slot change the state at that slot only |
| Udasics.LibBounds.Free | src/udasics/udasics.c:398-429 | keeps validity and does what the value model's free does, with its code |
| Udasics.LibBounds.ClearCached | src/udasics/udasics.c:415-426 | the loop clears the first slot whose map entry is the handle, whatever the map says, and nothing else |
| Udasics.LibBounds.FreeByMap | src/udasics/udasics.c:398-429 | from any coherent state, whatever the map says: the code, the table without the handle, and the slots without the first one the map names for it |
| Udasics.ClearedIsEvict | src/udasics/udasics.c:415-426 | that evicts the handle if the map names each bound at its own slot only |
| Udasics.LibBounds.FreeAll | src/udasics/udasics.c:431-441 | does what the value model's free-all does and leaves -1 in every map entry |
| Udasics.LibBounds.Get | src/udasics/udasics.c:443-452 | the rights of the handle, 0 if it is not live |
| Udasics.LibBounds.Search | src/udasics/udasics.c:258-262 | walking the table finds the first bound in application order that grants the access, or none |
| Udasics.LibBounds.LdstChecker | src/udasics/udasics.c:252-281 | after a miss, loads that bound into the slot rand() picks and returns the slot, or -1; validity is kept |
| Udasics.LibBounds.Access | src/udasics/udasics.c:298-321 | the access with its fault arms succeeds exactly if some live bound grants it |
| Udasics.LibBounds.Register | src/udasics/udasics.c:71-97 | registers and table end up coherent whatever the map was; the whole state is valid exactly if the map held -1 for each slot left free |
| Udasics.AdoptedIs | src/udasics/udasics.c:81-97 | after registration every valid slot has its own table entry with its contents, numbered in slot order, and the map names it |
| Udasics.InitialMapMisleads | src/udasics/udasics.c:71 | with the map as initialised, the search for handle 0 stops at the slot that holds it exactly if that is slot 0 or 1 |
| Udasics.InitialMapKeepsBound | src/udasics/udasics.c:71-97 | so freeing handle 0 then leaves its bound in a slot, granting what it granted, if and only if it was in neither of them |
| Udasics.LibBounds.Unregister | src/udasics/udasics.c:105-116 | empties the table by deleting while iterating and leaves the slots as they were |
| Uthash.HashTable.MakeTable | include/uthash.h:215-245 | a new table has 32 empty buckets, zero counters and the node as its tail |
| Uthash.HashTable.AppendList | include/uthash.h:281-287 | the node goes to the end; head, tail and both directions stay right |
| Uthash.HashTable.AddToBkt | include/uthash.h:770-789 | the node joins its chain and the bucket side holds exactly the items and it; the buckets double exactly if the chain is then too long for its bucket and expansion is not switched off |
| Uthash.HashTable.Add | include/uthash.h:399-418 | keeps the full table invariant; the items are the old ones and the new one last; the buckets double exactly if the chain of the new key is then too long and expansion is not switched off |
| Uthash.HashTable.Find | include/uthash.h:156-176 | null if and only if no item has the key, else an item that has it; so nothing that keeps the items, expansion and sorting among them, changes a result |
| Uthash.HashTable.FindInBkt | include/uthash.h:748-767 | searches the whole chain |
| Uthash.HashTable.Delete | include/uthash.h:453-480 | keeps the full invariant and removes exactly that item, keeping the order of the others |
| Uthash.HashTable.UnlinkApp | include/uthash.h:460-473 | both ends and both directions of the list stay right whichever item is taken out |
| Nodes.DropFromChain | include/uthash.h:792-804 | unlinks a node from its chain: all chains stay doubly linked with right counts, and the members are the others |
| Nodes.PushFront | include/uthash.h:770-781 | pushes a node on its chain: all chains stay doubly linked with right counts, and it is the new member |
| Uthash.HashTable.ExpandBuckets | include/uthash.h:836-886 | doubles the buckets and keeps every item, each in its new bucket; ideal_chain_maxlen is the ceiling of items per bucket, nonideal_items the sum of what chains have beyond it, each multiplier and the two verdict flags as computed |
| Expansion.BucketIsRemainder | include/uthash.h:433-436 | the masked hash value is the remainder by the bucket count, so the index of a bucket |
| Expansion.IdealIsCeiling | include/uthash.h:849-851 | the shift plus one for masked-off bits is a rounded-up division |
| Expansion.MultExact | include/uthash.h:858-863 | the multiplier counted up node by node is 0 for an ideal chain, else the smaller of count - ideal and ceil(count / ideal) |
| Expansion.MultBounds | include/uthash.h:858-863 | a new chain has at most (expand_mult + 1) * ideal nodes, expand_mult <= ceil(count / ideal), and it is zero exactly if the chain is ideal |
| Uthash.HashTable.FindPlace | include/uthash.h:289-296 | the first item that compares greater |
| Uthash.HashTable.AddInOrder | include/uthash.h:353-384 | keeps the full invariant; the new item goes in front of the first item that compares greater |
| Order.InsertSorted | include/uthash.h:353-384 | ordered insertion keeps a sorted list sorted |
| Order.InsertTies | include/uthash.h:353-384 | and puts the new item after all its equals |
| ListSort.MergeOne | include/uthash.h:918-949 | one step of a merge takes the item the stable merge takes and links it both ways |
| ListSort.Pass | include/uthash.h:903-960 | one pass merges neighbouring runs; it reports at most one merge exactly if the list is at most two runs |
| ListSort.SortList | include/uthash.h:893-975 | for any total preorder and fewer than 2^32 items, run-length doubling in 32 bits ends with the list sorted by stable insertion, doubly linked, with its head and tail |
| Order.PassDoubles | include/uthash.h:903-960 | merging neighbouring sorted runs of n gives the sorted runs of 2n |
| Order.SortIsStable | include/uthash.h:893-975 | the result is a sorted permutation in which equal items keep their order |
| Order.StableSortIsUnique | include/uthash.h:893-975 | there is only one such list |
| Uthash.HashTable.Sort | include/uthash.h:893-975 | keeps the full invariant, touches no bucket chain, and leaves the stable sort |
| Uthash.HashTable.Fsck | include/uthash.h:519-566 | on any table whose walks end, valid or not, the authors' check finds fault exactly if some back pointer or some count is wrong |
| Uthash.HashTable.ValidPasses | include/uthash.h:519-566 | a table that satisfies the invariant passes it |
| Uthash.HashTable.DeleteAll | include/uthash.h:1059-1066 | iterating with the next item saved deletes everything |
| Memory.ByteFillIs | lib/string/memset.S:94-98 | the byte loop sets exactly [p, p + n) and leaves every other byte |
| Memory.ByteCopyIs | lib/string/memcpy.S:93-98 | the byte loop copies exactly n bytes and leaves every other byte, if the destination does not start inside the source |
| Memset.LowByteIs | lib/string/memset.S:28 | the byte stored is the value modulo 256 |
| Memset.BroadcastIs | lib/string/memset.S:27-34 | three shifts put the low byte into all eight bytes |
| Memset.EnterDevice | lib/string/memset.S:36-53 | the backwards-adjusted base and the mid-loop entry together start at the first doubleword to fill |
| Memset.RunDevice | lib/string/memset.S:54-88 | from any entry the 256-byte loop fills up to the end address and stops exactly there |
| Memset.Memset | lib/string/memset.S:4-101 | memory is what the byte loop leaves, for every address and length, as far as MemsetCount says; the address is returned |
| Memset.MemsetCountIs | lib/string/memset.S:19-98 | that is the whole region if it ends before the address space does; if it ends with it, exactly if the region is one byte, or at least sixteen with at most 256 bytes of doublewords |
| Memcpy.CopyBlocks | lib/string/memcpy.S:36-71 | the 128-byte loop copies whole blocks and stops exactly at its end |
| Memcpy.CopyHead | lib/string/memcpy.S:15-72 | alignment prologue and blocks copy a prefix |
| Memcpy.CopyTail | lib/string/memcpy.S:74-100 | the word or byte tail copies the rest, whichever the alignments allow |
| Memcpy.WordAlignedIs | lib/string/memcpy.S:79-83 | the masked or of three addresses is zero exactly if all are word-aligned |
| Memcpy.Memcpy | lib/string/memcpy.S:4-100 | memory is what the byte loop leaves, for every pair of alignments and every length, as far as MemcpyCount says; the destination is returned |
| Memcpy.MemcpyCountIs | lib/string/memcpy.S:23-98 | that is everything if the source ends before the address space does; if it ends with it, exactly for one byte, one word between aligned addresses, or one block after the boundary of a large region |
| Coverage.Greedy | src/udasics/udasics.c:173-186 | over sorted bounds the loop answers exactly whether (lo, hi] is covered, for all 64-bit values |
| Coverage.BoundChecker | src/udasics/udasics.c:170-186 | so does sorting followed by the loop, for the bounds as collected |
| Coverage.LowEndIgnored | src/udasics/udasics.c:152-175 | covering [lo, hi] is that and covering lo |
| FuncMem.FuncMem.constructor | src/memory/ufuncmem.c:16-32 | sixteen free records, count 0 |
| FuncMem.FuncMem.FreeRecord | src/memory/ufuncmem.c:74-94 | grows a full table by sixteen free records and finds the first free one |
| FuncMem.FuncMem.Malloc | src/memory/ufuncmem.c:72-103 | keeps records and bounds in step; does what the value model's malloc does; returns the block |
| FuncMem.FuncMem.Realloc | src/memory/ufuncmem.c:106-138 | the same for realloc: the record moves to the new block, the old bound goes, a new one comes |
| FuncMem.FuncMem.Free | src/memory/ufuncmem.c:142-175 | the same for free: record and bound go |
| FuncMemModel.MallocFinds | src/memory/ufuncmem.c:74-93 | a free record always exists when malloc searches |
| FuncMemModel.MallocIs | src/memory/ufuncmem.c:72-103 | malloc: the first free record, or the first of sixteen new ones, takes the block, the size asked for and a new handle; every other record and every bound stays |
| FuncMemModel.MallocGrantsIff | src/memory/ufuncmem.c:99 | afterwards an access is granted exactly if it was before or lies in the doublewords of the whole block |
| FuncMemModel.ReallocIs | src/memory/ufuncmem.c:106-138 | realloc: the record of the address, and no other, takes the new block and size; its old bound, and no other, goes; an access is granted exactly by the other bounds or in the doublewords of the new block |
| FuncMemModel.FreeIs | src/memory/ufuncmem.c:142-175 | free: the record of the address, and no other, becomes free; its bound, and no other, goes |
| FuncMemModel.OwnedBlockGranted | src/memory/ufuncmem.c:99 | the bound of a record in use grants reading and writing each byte of its block |
| FuncMemModel.StepOk | src/memory/ufuncmem.c:72-175 | every allowed call keeps: count = records in use, coherence, each record in use owning a live bound of its own for just its block, and the very bounds that belong to no record |
| FuncMemModel.RunConserves | src/memory/ufuncmem.c:72-175 | so does every run: no bound that belongs to no record is gained, lost or changed |
| FuncMemModel.CountKeptIffNotNull | src/memory/ufuncmem.c:142-175 | free and realloc keep the count right if and only if the address is not null |
| FuncMemModel.NullTakesHandleZeroIff | src/memory/ufuncmem.c:106-175 | free and realloc of null take a live bound away if and only if handle 0 is live and the first free record was never used; then it is that one |
| Jumps.ShiftIs | src/udasics/udasics.c:459-488 | the field of jump slot idx lies at bit 16 * idx |
| Jumps.Take | src/udasics/udasics.c:486-488 | taking a jump slot sets its 16-bit field to V and changes none of the three others |
| Jumps.Clear | src/udasics/udasics.c:502-506 | freeing one clears its V bit and changes none of the three others |
| Jumps.JumpBounds.Alloc | src/udasics/udasics.c:454-495 | the first idle slot takes the bounds and is returned; -1 and no change if there is none |
| Jumps.JumpBounds.Free | src/udasics/udasics.c:497-507 | the slot becomes idle and 0 is returned; -1 and no change if it is no slot |
| Cross.CrossCalls.constructor | src/maincall/cross.c:16-28 | an empty stack at the top of the buffer |
| Cross.CrossCalls.PushCross | src/maincall/cross.c:31-43 | the frame is the new top, the others stay |
| Cross.CrossCalls.CrossCall | src/maincall/umaincall.c:30-76 | a call that crosses takes a jump slot and three bounds, leaves a frame naming them and the return address, and redirects the return; any other call changes nothing |
| Cross.CrossCalls.DynamicCall | src/maincall/umaincall.c:82-102 | the whole call, redirection included, is a step of the value model |
| Cross.CrossCalls.PopCross | src/maincall/cross.c:47-97 | frees what the frame names but zeros and the bounds of the target's records in use, restores the return address and drops the frame; reports failure exactly if an assertion fails |
| Cross.CrossCalls.DynamicReturn | src/maincall/umaincall.c:105-111 | the whole return is a step of the value model |
| CrossRuns.FreeHandlesIs | src/maincall/cross.c:51-56 | the handles of a frame can all be freed exactly if all but the zeros are live; then exactly they go |
| CrossRuns.FreeRecordsIs | src/maincall/cross.c:78-93 | the bounds of records in use can all be freed exactly if each is live and named once; then exactly they go |
| CrossRuns.LeaveIs | src/maincall/cross.c:47-97 | a return aborts exactly if its frame's jump slot is -1, or a bound it names is not live, or the records' bounds cannot all be freed; else it gives back what frame and records name |
| CrossRuns.RunKeeps | src/maincall/umaincall.c:30-111 | after any run of nested calls and returns with allocations, frees, loads and stores: the open frames are on top of the old stack, and popping them would leave what the run would leave without the bounds and slots of its calls, but for handle 0 and jump slot 0 |
| CrossRuns.BalancedRunLeaves | src/maincall/umaincall.c:30-111 | balanced runs end with the stack they began with and the live bounds and jump slots that the allocations and frees alone leave, plus handle 0 and jump slot 0 if a call took them |
| CrossRuns.BalancedRunConserves | src/maincall/umaincall.c:30-111 | so calls and returns alone end with the stack, the live bounds and the jump slots they began with, plus those two |
| CrossRuns.BalancedRunRestores | src/maincall/cross.c:52-64 | they leave nothing behind if and only if handle 0 and jump slot 0 were already taken or nothing crossed |
| CrossRuns.ReturnRestoresRa | src/maincall/cross.c:57 | a return gives ra and t1 the return address of its matching call and keeps sp, whatever calls, returns, allocations, frees, loads and stores happened in between |
| CrossRuns.ReturnAbortsIff | src/maincall/cross.c:52-93 | a return aborts if and only if its matching call found all four jump slots taken, or something in between freed a bound of the call (but handle 0), or the bounds of the target's records are not all there to be freed |
| CrossRuns.CallIs | src/maincall/umaincall.c:30-102 | a call into a trusted library or the caller's own changes only t1; any other leaves one frame with libraries, return address and handles, takes the first idle jump slot for the target's code if there is one, and sends the return to the gate |
| CrossRuns.CallGrantsIff | src/maincall/umaincall.c:57-64 | what a call opens, exactly: reading the target's read-only range, reading and writing its writable range and the 64 KiB below the stack pointer, rounded out to doublewords; nothing else, and nothing is closed |
| CrossRuns.CallGrants | src/maincall/umaincall.c:57-64 | in particular the callee may use those, and the stack bound grants nothing from the stack pointer, rounded up, on |
| Itoa.DigitsReadBack | lib/tools/dasics_printf.c:82-89 | the digits of a number denote it |
| Itoa.NegativeDigits | lib/tools/dasics_printf.c:82-89 | of a negative number left negative one character is printed, which denotes zero or nothing |
| Itoa.PrintsTheNumberIff | lib/tools/dasics_printf.c:66-108 | for radix 2 to 16 the text denotes the number if and only if it is not the least negative one, or in unsigned mode is below 2^63 |
| Itoa.TextShows | lib/tools/dasics_printf.c:66-108 | what is printed right is the number's digits in the radix and case asked for, at least the padding's worth, with zeros in front only to reach it, behind a minus sign if negative |
| Itoa.ShowsOnly | lib/tools/dasics_printf.c:66-108 | there is only one such text |
| Itoa.DigitsCase | lib/tools/dasics_printf.c:85-87 | letters among the digits have the case asked for |
| Itoa.DigitCount | lib/tools/dasics_printf.c:82-89 | there are exactly as many digits as the number needs |
| Itoa.TextLength | lib/tools/dasics_printf.c:91-94 | sign aside, the length is the larger of digit count and padding |
| Itoa.FitsIff | lib/tools/dasics_printf.c:145 | the text and its terminator fit 24 bytes if and only if the padding is at most 22, or 23 without a sign |
| Itoa.Reverse | lib/tools/dasics_printf.c:98-105 | reverses a prefix in place |
| Itoa.MiniItoa | lib/tools/dasics_printf.c:66-108 | the buffer holds the text, a terminator, and what it held behind it; radixes above 16 write nothing and return 0 |
| Printf.MiniBuff.Putc | lib/tools/dasics_printf.c:116-124 | appends the character if there is room and says whether it did |
| Printf.MiniBuff.Puts | lib/tools/dasics_printf.c:126-138 | appends as much of the string as there is room for and says how much |
| Printf.ParseReads | lib/tools/dasics_printf.c:159-180 | a directive of 0 and digits, perhaps an l, and a conversion is read as the decimal value of the digits modulo 256, whether there was an l, and that conversion, ending right behind it |
| Printf.ParsedText | lib/tools/dasics_printf.c:159-180 | every directive a format does not break off is read from such a text |
| Printf.Convert | lib/tools/dasics_printf.c:182-223 | appends the text of the conversion, cut to the room there is |
| Printf.MiniVsnprintf | lib/tools/dasics_printf.c:140-228 | the buffer holds the untruncated rendering cut to one less than its size, the result is that length, and all but a terminator behind it is untouched |
| Printf.PaddingsDecide | lib/tools/dasics_printf.c:145-176 | if the digits of each padding, modulo 256, are at most 23, or 22 for a long d, every number fits its buffer whatever the arguments; if not, some arguments overflow it |
| Printf.RenderDirective | lib/tools/dasics_printf.c:158-223 | a directive prints its piece, and the rest of the format goes on with the next argument exactly after u, d, x, X, c and s |
| Printf.StringPrints | lib/tools/dasics_printf.c:215-218 | %s prints the string of the next argument and takes it |
| Printf.CharPrints | lib/tools/dasics_printf.c:211-213 | %c prints the low byte of the next argument and takes it |
| Printf.NumberPrints | lib/tools/dasics_printf.c:190-209 | a numeric directive prints its number, in its radix and case, padded as its digits say, and takes one argument; excepted are the least long and unsigned longs from 2^63 on |
| Printf.OtherPrints | lib/tools/dasics_printf.c:220-222 | a percent sign and any other character print that character and take nothing |
| Printf.PercentPrints | lib/tools/dasics_printf.c:220-222 | %% prints one percent sign |
| Printf.BrokenOff | lib/tools/dasics_printf.c:164-184 | a format that ends inside a directive prints nothing more |
| Printf.LiteralText | lib/tools/dasics_printf.c:152-157 | text up to the first percent sign is copied |
| Printf.LongNumberIff | lib/tools/dasics_printf.c:190-209 | with l the printed text denotes the argument if and only if it is not the least negative long, or for unsigned ones is below 2^63 |
| Printf.IntNumber | lib/tools/dasics_printf.c:190-209 | without l it always denotes the argument as unsigned, so d is right exactly for ints that are not negative |
| Printf.LongLongPrintsNothing | lib/tools/dasics_printf.c:177-188 | a second l is taken for the conversion: anywhere in a format, %ll prints nothing, takes no argument, and what follows is ordinary text |
| Printf.LongLongPrintsLetter | lib/tools/dasics_printf.c:177-222 | so %ll and any other character prints that character alone |

## Left out

- Memcpy.Memcpy: regions whose destination starts inside the source, for which the byte loop itself does not copy.
- ListSort.SortList: lists of 2^32 items or more, beyond the table's own 32-bit count.
- Uthash.HashTable.Add: 32-bit wrap of the item and bucket counters, and allocation failure.
- BoundRuns.HandlesGrow: int overflow of the handle counter, which the source also ignores.
- Udasics.LibBounds.LdstChecker: called only after a genuine miss, as the hardware does; RefillCoherentIff says what happens otherwise.
- FuncMem.FuncMem.Realloc: calls for addresses in no record, which dereference a null pointer.
- FuncMem.FuncMem.Free: calls for addresses in no record, which fail an assertion.
- Cross.CrossCalls.DynamicCall: pushes beyond the 6280 frames that fit the buffer (4096 are meant), where the program only prints an error and writes on.
- CrossRuns.ReturnRestoresRa: free-alls between a call and its return, which free the cached ones of the open frames' bounds.
- Printf.MiniVsnprintf: formats with numbers too long for their 24-byte buffer, which overflow it.
- Itoa.MiniItoa: radixes 0 and 1, which divide by zero and do not end.
- Start-up, trap and main-call entry assembly, and access to the control and status registers: hardware plumbing.
- The back pointers from nodes to their table and the offset to the embedded handle in uthash: each node here knows its entry.
- Hash functions, bloom filters and non-fatal out-of-memory paths of uthash: switched off or left as an uninterpreted function.
- HASH_SELECT: it never moves the destination's tail, so no list invariant survives it.
- The loop of `dasics_bound_checker` that collects bounds: it passes slot numbers where handles are expected; its result is an input here.
- The bodies of `qsort`, `malloc`, `realloc`, `free` and `rand`; variable arguments beyond those passed.
- `dasics_oldest_victim`, ecall and fetch fault handlers, printing of faults, syscall checks: unused or trivial.
- `set_global_func_man`: it links a node that is already linked.
- `src/dynamic`, `src/memory/dmalloc.c`, `lib/tools/original.c`: data from outside the library, a rounding constant that is no power of two, and a copy of the slot code.

# libkdumpfile

libkdumpfile reads kernel core dumps; libaddrxlat, which is part of it, translates addresses between the
address spaces of the dumped system. This project models the stateful core of both libraries and proves
what it keeps over whole runs.

| file | what it models |
|---|---|
| `RingList`, `CacheRing`, `CacheSpec`, `CacheInvariant`, `CacheCount`, `CacheRuns`, `CacheTheorems`, `CacheRecency`, `CacheAdaptation`, `CacheHits`, `CacheOvertaking`, `Cache` | the adaptive cache of `cache.c`: `Cache.EntryCache` has the linked ring, the in-flight list and the counters of `struct cache`; `CacheSpec` says the same with seven lists; the other modules prove what runs of operations keep |
| `FileCache` | reading through that cache (`fcache.c`) |
| `AddrMap` | the range map of `map.c`, updated in place |
| `FlatMap` | flattened dump files (`flatmap.c`), whose offset map is an `AddrMap.Map` |
| `PageTable`, `PageEntries`, `Steps`, `Search`, `SearchLimits` | page table walks, step by step, and the searches for mapped and unmapped addresses (`step.c` and the entry formats of x86_64, riscv64 and 32-bit Arm) |
| `Translator` | `addrxlat_op`: the map chains, the methods, reads through the page callback that need translations of their own, and the guard against endless recursion (`sys.c`, `ctx.c`) |
| `Layout` | the layouts that an operating system map is set up with (`sys.c`) |
| `ReadCache` | the four-slot cache in front of the page callback (`ctx.c`) |
| `Bits`, `Bitmap`, `PfnRegions` | bitmaps of page frames and the regions made of them (`bitmap.c`, `pfn.c`) |
| `PfnIndex` | the index from page frame numbers to positions (`elfdump.c`) |
| `Options` | the option type |

Integers are unbounded, so addresses and file offsets are taken modulo 2^64, shifted, masked and sign-extended
explicitly. Buffers and in-place algorithms are arrays and classes as in the C code; the specification
that each of them refines is a function or a predicate on sequences.

## Model

| member | source | states |
|---|---|---|
| `CacheTheorems.DisciplinedRun` | src/kdumpfile/cache.c:40-101 | in every run from a flushed cache that discards only while at most one entry is in flight, every state satisfies the whole invariant and every eviction finds a victim |
| `CacheTheorems.EveryBufferOwned` | src/kdumpfile/cache.c:49-50 | in a sound state every buffer of the data area is owned by an entry; buffers are neither lost nor shared |
| `CacheTheorems.GetResult` | src/kdumpfile/cache.c:538-561 | in every structured state where an eviction finds a victim, sound or not: a request fails exactly if the cache is full of referenced entries and the key is not there, and then changes nothing; otherwise it adds one reference to one entry, with the requested key, and leaves key, buffer and references of all other referenced entries alone |
| `CacheTheorems.StepKeepsPinned` | src/kdumpfile/cache.c:472-652 | in the same states, no operation changes the key or the buffer of a referenced entry |
| `CacheTheorems.PinnedThroughRun` | src/kdumpfile/cache.c:472-652 | over any run through such states, an entry that stays referenced keeps its key and its buffer |
| `CacheTheorems.FullMeans` | src/kdumpfile/cache.c:519-525 | the count made while searching says "full" exactly if no buffer is spare and every cached entry is referenced |
| `CacheRuns.GetSound` | src/kdumpfile/cache.c:268-446 | for every sound state and key: the request leaves a sound state and evicts only what is there, if and only if it does not starve |
| `CacheRuns.DefinedIff` | src/kdumpfile/cache.c:268-281 | in a sound state an eviction lacks a victim, so that an unset index is used, exactly for a starving request whose key is no ghost |
| `CacheRuns.RunSound` | src/kdumpfile/cache.c:472-652 | a run from a sound state stays sound, with a victim for every eviction, if and only if none of its requests starves |
| `CacheRuns.GetValid` | src/kdumpfile/cache.c:293-312 | a request keeps the order of the spare buffers among the unused entries if and only if it does not overtake |
| `CacheRuns.RunValid` | src/kdumpfile/cache.c:472-652 | a run from a valid state keeps that order throughout if and only if none of its requests overtakes |
| `CacheRuns.ValidFeeds` | src/kdumpfile/cache.c:268-446 | with the spare buffers in order no request starves |
| `CacheCount.ValidIsSound` | src/kdumpfile/cache.c:719-754 | with the spare buffers in order exactly as many entries own a buffer as there are buffers |
| `CacheOvertaking.OvertakingRun` | src/kdumpfile/cache.c:293-366 | a run of twelve operations with two buffers: it overtakes, leaves a sound state in which a request for one ghost starves and one for a new key finds no victim, and ends with a referenced in-flight entry without a buffer, which the next insertion makes a cached one |
| `CacheRecency.RunKeepsRecent` | src/kdumpfile/cache.c:40-80 | over any run that begins with empty cached partitions and goes through such states, both partitions stay in order of last use |
| `CacheRecency.VictimIsOldest` | src/kdumpfile/cache.c:259-281 | the evicted entry is unreferenced and the least recently used of its kind; the kind is probed exactly if that partition exceeds its target, when both kinds have a candidate |
| `CacheAdaptation.Adaptation` | src/kdumpfile/cache.c:395-445 | the target for probed entries moves only when a ghost is brought back: down for a precious one and up for a probed one, by how many times as large the other ghost partition is, at least one, and within 0 and the capacity |
| `CacheAdaptation.OthersKeepTarget` | src/kdumpfile/cache.c:572-652 | no other operation moves it |
| `CacheAdaptation.RequestMoves` | src/kdumpfile/cache.c:257-445 | a request for what is not there puts exactly one entry in flight, the ghost of that key as precious, or else an unused entry or the oldest ghost as probed; without a spare buffer exactly one unreferenced entry becomes a ghost of its kind and hands its buffer on, a probed one if that partition exceeds the target, counting a new key in; every other entry stays where it is |
| `CacheHits.RunCounts` | src/kdumpfile/cache.c:40-50 | over any run from unused entries, probed entries and their ghosts were requested once since they got their key, precious ones and theirs more often, and the state of an in-flight entry says which it will be |
| `CacheHits.CountsDecide` | src/kdumpfile/cache.c:40-50 | so the number of requests decides the partition of every cached entry and of every ghost |
| `CacheHits.RunAges` | src/kdumpfile/cache.c:219-255 | over any run from caches without ghosts, both ghost partitions stay in order of eviction |
| `CacheHits.RecycledIsOldest` | src/kdumpfile/cache.c:321-366 | when no entry is unused, a new key takes the probed ghost that was evicted first, or such a precious one if there is no probed one |
| `CacheSpec.FindKey` | src/kdumpfile/cache.c:396-470 | a search gives an entry of the list with the key, or there is none |
| `Cache.EntryCache.constructor` | src/kdumpfile/cache.c:727-754 | the linked ring of a new cache represents the flushed state, which satisfies the invariant |
| `Cache.EntryCache.ReuseCachedEntry` | src/kdumpfile/cache.c:204-217 | the ring now begins with the entry, and split is the entry before it |
| `Cache.EntryCache.EvictProbe` | src/kdumpfile/cache.c:224-237 | the linked ring represents the old state with the victim moved to the front of the probed ghosts |
| `Cache.EntryCache.EvictPrec` | src/kdumpfile/cache.c:244-255 | the linked ring represents the old state with the victim moved to the front of the precious ghosts |
| `Cache.EntryCache.EvictEntry` | src/kdumpfile/cache.c:268-281 | evicts the entry that the specification chooses |
| `Cache.EntryCache.ReclaimData` | src/kdumpfile/cache.c:293-312 | the ghost gets the buffer of the last unused entry, or that of the victim |
| `Cache.EntryCache.GetMissedEntry` | src/kdumpfile/cache.c:321-366 | an unused entry or the oldest ghost goes in flight for the new key, with its own buffer or that of the victim |
| `Cache.EntryCache.GetGhostOrMissedEntry` | src/kdumpfile/cache.c:395-445 | a ghost hit moves the target and reclaims a buffer; otherwise it is a miss |
| `Cache.EntryCache.GetInflightEntry` | src/kdumpfile/cache.c:453-470 | finds the in-flight entry with the key, if there is one, and makes it precious |
| `Cache.EntryCache.GetEntryNoref` | src/kdumpfile/cache.c:478-536 | answers as the specification does before a reference is taken; hits and misses are counted exactly |
| `Cache.EntryCache.GetEntry` | src/kdumpfile/cache.c:551-561 | ring, list, counters and entries represent the specified new state, in every structured state where an eviction finds a victim, sound or not; the answer is the specified one |
| `Cache.EntryCache.Insert` | src/kdumpfile/cache.c:572-602 | an in-flight entry moves to the front of the partition its state asks for; a valid one stays |
| `Cache.EntryCache.PutEntry` | src/kdumpfile/cache.c:609-613 | one reference less and nothing else |
| `Cache.EntryCache.Discard` | src/kdumpfile/cache.c:628-652 | an in-flight entry without further references becomes the first unused one; any other loses a reference |
| `Cache.EntryCache.Flush` | src/kdumpfile/cache.c:692-717 | whatever links, lists and counters were before, the flushed state, which satisfies the invariant |
| `FileCache.KeyOf` | src/kdumpfile/fcache.c:177-178 | block position and file index can be read back from the key |
| `FileCache.KeysAreInjective` | src/kdumpfile/fcache.c:177-178 | two keys are equal exactly if block and file are |
| `FileCache.FileCache.GetRead` | src/kdumpfile/fcache.c:169-200 | the chunk shows the file from the position to the end of the page, zero-filled behind the end of file; every cached page stays true, and only one reference is taken |
| `FileCache.FileCache.Pread` | src/kdumpfile/fcache.c:275-299 | on success the buffer holds the slice of the file, else the cache was full of referenced entries or the read failed; references and the rest of the buffer are as before, and every cached page is that of its key |
| `AddrMap.Map.Set` | src/addrxlat/map.c:86-204 | the edited array is the canonical encoding of the old function with the new method at exactly the given addresses; if memory runs out the map is as before |
| `AddrMap.Map.MethodAt` | src/addrxlat/map.c:208-222 | the method of the range that the address is in, or none |
| `AddrMap.SplicePointwise` | src/addrxlat/map.c:86-204 | replacing the located ranges by at most three is a pointwise update of the function that the array encodes |
| `AddrMap.CanonicalUnique` | src/addrxlat/map.c:86-204 | canonical arrays that answer alike at every address are identical |
| `AddrMap.RunMeaning` | src/addrxlat/map.c:86-204 | after any run of updates the array is canonical, and each address has the method of the last update that covers it |
| `AddrMap.RunsWithEqualMeaning` | src/addrxlat/map.c:86-204 | two runs of updates give the same array exactly if they paint every address alike |
| `FlatMap.RearrangedAt` | src/kdumpfile/flatmap.c:75-141 | reading the offset map at an address is reading the file that results from writing all segments in order |
| `FlatMap.RangeSlice` | src/kdumpfile/flatmap.c:248-288 | within a range the rearranged file is one slice of the flattened one, or zeroes |
| `FlatMap.PlanHole` | src/kdumpfile/flatmap.c:300-322 | a chunk lies within a range without a method exactly if no segment wrote any of it and it ends within 2^64 bytes |
| `FlatMap.HoleExample` | src/kdumpfile/flatmap.c:75-141 | a flattened file whose headers give one segment, with such a chunk before it, all of whose bytes are zero in the rearranged file |
| `FlatMap.FlatFile.Init` | src/kdumpfile/flatmap.c:75-141 | on success the map represents the segments that the headers say, in order; corrupt is reported only for files with such a header |
| `FlatMap.FlatFile.Pread` | src/kdumpfile/flatmap.c:248-288 | on success the buffer holds the slice of the rearranged file; nothing else in it changes |
| `FlatMap.FlatFile.PlanChunk` | src/kdumpfile/flatmap.c:300-322 | a chunk is fetched directly only from where the flattened file has just its data; the offset comes from outside the offset array exactly for holes |
| `FlatMap.BigEndianIs` | src/kdumpfile/flatmap.c:94-119 | bytes that are the digits of a number to base 256, the highest one first, are read as that number |
| `FlatMap.Int64Is` | src/kdumpfile/flatmap.c:94-119 | eight bytes that hold a number of 64 bits in two's complement are read as that number |
| `PageEntries.X86Table` | src/addrxlat/x86_64.c:143-195 | if the memory has, at table address plus 8 times the index, an entry with bit 0 set that is no large page, the walk goes on at the multiple of 4096 in its bits up to 51 |
| `PageEntries.X86Page` | src/addrxlat/x86_64.c:176-188 | if it has one with bits 0 and 7 set and a multiple of 2 MiB (level 2) or of 1 GiB (level 3), the walk ends there plus the offset |
| `PageEntries.X86Absent` | src/addrxlat/x86_64.c:143-195 | with bit 0 clear it ends with not present |
| `PageEntries.X86FourLevels` | src/addrxlat/x86_64.c:143-195 | the whole translation of a canonical address with four levels, by the numbers in the tables: base of the 1 GiB, 2 MiB or 4 KiB page plus the address modulo its size |
| `PageEntries.RiscVWalk` | src/addrxlat/riscv64.c:127-157 | an entry with page number n leads to the table or page at 4096 n, or for permissions above the last level to a superpage as large as the entry's span; without the valid bit it is not present, and without permissions at the last level invalid |
| `PageEntries.ArmWalk` | src/addrxlat/arm.c:135-180 | short descriptors lead to coarse tables at multiples of 1024, sections, supersections with 40-bit addresses and 16 times a section's size, large pages of 16 small ones, and small pages |
| `PageEntries.ArmAbsent` | src/addrxlat/arm.c:135-180 | descriptors of type 0 are not present |
| `Steps.SignBits` | src/addrxlat/step.c:279-295 | the comparison of the top bits with all ones or zero holds exactly if the address is sign-extended |
| `Steps.Machine.FirstStepGeneric` | src/addrxlat/step.c:156-181 | the indices are the bit fields of the address, and the top index is what remains |
| `Steps.Machine.CheckSigned` | src/addrxlat/step.c:279-295 | succeeds exactly for sign-extended addresses |
| `Steps.Machine.HugePage` | src/addrxlat/step.c:116-130 | all lower indices are collected into the offset into the large page |
| `Steps.Machine.AddOverlap` | src/addrxlat/arm.c:121-129 | the next index gets the low bits of the one above |
| `Steps.Machine.PgtX86` | src/addrxlat/x86_64.c:143-195 | one step goes where the entry says: a table, a page of one of three sizes, or a failure |
| `Steps.Machine.PgtRiscV` | src/addrxlat/riscv64.c:127-157 | the same for riscv64, with invalid leaf entries |
| `Steps.Machine.PgtArm` | src/addrxlat/arm.c:135-180 | the same for 32-bit Arm: coarse tables, sections, supersections, large and small pages |
| `Steps.Machine.Launch` | src/addrxlat/step.c:551-556 | from here stepping leads to the result of the recursive translation, or that fails with the same status |
| `Steps.Machine.Step` | src/addrxlat/step.c:560-577 | each step gets nearer to the end and still leads to the same result |
| `Steps.Machine.DoWalk` | src/addrxlat/step.c:581-603 | a walk computes the recursive translation |
| `Steps.Machine.LaunchAndStep` | src/addrxlat/step.c:551-577 | so does launching and stepping until nothing remains |
| `Search.HalfIs` | src/addrxlat/step.c:660-830 | two walks share their first table exactly if the addresses are in the same canonical half |
| `Search.UpwardsIsLowest` | src/addrxlat/step.c:611-680 | a search over all levels meets the lowest address in the half, or the first one that fails otherwise |
| `Search.DownwardsIsHighest` | src/addrxlat/step.c:688-758 | and one downwards the highest |
| `Search.LowestMappedTbl` | src/addrxlat/step.c:611-649 | the recursion into the tables skips unmapped spans only |
| `Search.HighestMappedTbl` | src/addrxlat/step.c:688-727 | the same downwards |
| `Search.LowestUnmappedTbl` | src/addrxlat/step.c:766-804 | the recursion skips mapped pages only, of whatever size |
| `Search.LowestMapped` | src/addrxlat/step.c:660-680 | the answer is the lowest mapped address from the page on, up to the limit and the end of the half; it reports none only if all of these are unmapped, an answer behind the half included, and the walk of the answer is left behind; for any limit the answer is that of a search upwards through the root table, so that the iffs of `SearchLimits` apply to it |
| `Search.HighestMapped` | src/addrxlat/step.c:738-758 | the highest mapped address from the end of the page down, with the same cases |
| `Search.LowestUnmapped` | src/addrxlat/step.c:815-830 | the lowest unmapped address, with the same cases |
| `SearchLimits.LowestMappedIff` | src/addrxlat/step.c:611-680 | with sign extension, whatever the search for a mapped address answers is right up to the limit on every memory, if and only if the limit is in the half of the start, or the table has one level |
| `SearchLimits.LowestUnmappedIff` | src/addrxlat/step.c:766-830 | the same for unmapped addresses, if and only if the limit is in that half, or the mask leaves no entry that can lead to a page |
| `SearchLimits.HighestMappedIff` | src/addrxlat/step.c:688-758 | the same downwards for mapped addresses |
| `SearchLimits.ArmLowestMappedIff` | src/addrxlat/step.c:611-680 | on Arm, the search is right with every table of a paging form and every memory if and only if the limit is in the block of the root table that the start is in, or the start is in the first page of that block |
| `SearchLimits.ArmLowestUnmappedIff` | src/addrxlat/step.c:766-830 | the same for unmapped addresses |
| `SearchLimits.ArmHighestMappedIff` | src/addrxlat/step.c:688-758 | the same downwards, for the last page of the block and at most two levels of tables, as short descriptors have |
| `SearchLimits.FirstPageRight` | src/addrxlat/step.c:611-680 | on Arm, from the first page of a block on, the search is right up to any limit, with any table |
| `SearchLimits.LastPageRight` | src/addrxlat/step.c:688-758 | and downwards from the last page, with any number of levels |
| `SearchLimits.BeyondHalf` | src/addrxlat/step.c:611-680 | from the last page of the lower half, with 48 address bits, both searches report wrongly that there is nothing in that page and the next, with nothing mapped and with everything mapped |
| `SearchLimits.BehindBlock` | src/addrxlat/step.c:611-680 | with the two levels of short descriptors, a search from the second page of the address space to the page behind 4 GiB reports wrongly that none is mapped |
| `Translator.GuardedByMaps` | src/addrxlat/sys.c:428-611 | every translation not under way already is that of the maps by name: kernel physical to machine physical, direct, or the first of them that leads anywhere; machine physical to kernel physical and on through the direct map; virtual through the kernel's map, or else the hardware's, and on to the other physical space |
| `Translator.ReadsByMaps` | src/addrxlat/ctx.c:577-605 | reads are done at the address where the callback serves its space, and else where the maps lead |
| `Translator.LookupIs` | src/addrxlat/step.c:405-425 | the first element around an address decides, and the offset from where it begins is kept; without one it is not present |
| `Translator.MemArrIs` | src/addrxlat/step.c:432-482 | the number in the array for the address's page, times the page size, plus the offset into the page |
| `Translator.HarmlessIff` | src/addrxlat/sys.c:551-611 | for capabilities and an address space: on every system and memory the guard changes no translation that ends without it, if and only if they are not alarming |
| `Translator.AlarmingPairs` | src/addrxlat/sys.c:570-604 | alarming capabilities, space by space |
| `Translator.GuardTransparent` | src/addrxlat/sys.c:551-611 | the half of it for one context |
| `Translator.GuardHarmless` | src/addrxlat/ctx.c:577-605 | translations for reading are never changed |
| `Translator.FalseAlarm` | src/addrxlat/sys.c:592-599 | a system for each alarming pair where the translation exists but the guard fails it |
| `Translator.ReachedByWay` | src/addrxlat/sys.c:487-547 | an address that is reached is reached along a way: hops in chain order, each by the method that a map of its place selects, of which only the last one ends in a requested space |
| `Translator.Context.constructor` | src/addrxlat/ctx.c:298-316 | a new context has nothing in flight |
| `Translator.Context.Op` | src/addrxlat/sys.c:551-611 | computes the guarded translation, calls back at most once, last, and with the resulting address in a requested space; the calls before are those of nested reads; nothing stays in flight |
| `Translator.Context.DoOp` | src/addrxlat/sys.c:487-547 | follows the chain through the first map that applies at each place |
| `Translator.Context.WalkMethod` | src/addrxlat/step.c:405-603 | linear, lookup, memory array and page table methods translate as specified, with nested reads |
| `Translator.Context.ReadEntry` | src/addrxlat/addrxlat-priv.h:275-306 | entries are read through the guarded memory and masked |
| `Translator.Context.Read32` | src/addrxlat/ctx.c:538-605 | reads directly where the callback can, and else translates first |
| `Translator.Context.Read64` | src/addrxlat/ctx.c:608-675 | the same for 64-bit words |
| `Translator.Context.Convert` | src/addrxlat/sys.c:623-635 | the guarded translation into one space: from a context with nothing under way, the address that the maps by name lead to, in the requested space, or the error |
| `Layout.DirectRoundTrip` | src/addrxlat/sys.c:260-294 | once a layout is set, an address that its direct region covers translates to physical and back, and its physical address to virtual and back, if later regions leave alone the direct and the reverse method, the direct map and the method of that address |
| `Layout.IdentityRoundTrip` | src/addrxlat/sys.c:304-417 | once the physical maps are set, each address up to the highest one translates from kernel to machine physical and back as itself, whatever was set before |
| `Layout.HardwareMap` | src/addrxlat/x86_64.c:1067-1086 | for 39, 48 and 57 address bits, the hardware map set on an empty one has the page table method at exactly the addresses where a walk can start |
| `Layout.System.ActDirect` | src/addrxlat/sys.c:260-276 | sets the linear method and the reverse region |
| `Layout.System.SetLayout` | src/addrxlat/sys.c:336-393 | applies the regions in order, each with its action first |
| `Layout.System.SetPhysMaps` | src/addrxlat/sys.c:395-417 | sets both identity maps |
| `ReadCache.Transparent` | src/addrxlat/ctx.c:113-154 | if the callback answers alike for all addresses of a page: after any run of fetches and burials a fetch gives what the callback alone would give |
| `ReadCache.TrueByte` | src/addrxlat/ctx.c:113-154 | if the callback answers with pages of a memory: the byte at the requested address is that of the memory |
| `ReadCache.TrueWord` | src/addrxlat/ctx.c:538-631 | byte by byte, the word read is the memory's: byte i from the lowest is at the address plus i in a little-endian page, and that far from the end in a big-endian one |
| `ReadCache.ValueByte` | src/addrxlat/ctx.c:550-556 | digit i to base 256 of the number that bytes stand for, in either order |
| `ReadCache.MostRecentFirst` | src/addrxlat/ctx.c:75-97 | over any run the ring is in order of last use, buried slots last |
| `ReadCache.StaysCached` | src/addrxlat/ctx.c:113-195 | a page stays cached for the next three operations unless it is buried |
| `ReadCache.AlwaysBalanced` | src/addrxlat/ctx.c:113-195 | over any run, what the callback handed out is what it got back and what is still cached |
| `ReadCache.Slots.constructor` | src/addrxlat/ctx.c:43-55 | four empty slots in a ring |
| `ReadCache.Slots.Touch` | src/addrxlat/ctx.c:79-97 | relinking moves the slot to the front |
| `ReadCache.Slots.GetBuf` | src/addrxlat/ctx.c:113-154 | the linked slots hold the state after one more fetch, and the answer is that fetch's |
| `ReadCache.Slots.BuryBuffer` | src/addrxlat/ctx.c:165-195 | the linked slots hold the state after one more burial |
| `ReadCache.Slots.ReadWord` | src/addrxlat/ctx.c:538-561 | the word in the buffer that the fetch gives, cached or not; and if the callback answers alike for all addresses of a page, the one that it alone would give |
| `ReadCache.Slots.Cleanup` | src/addrxlat/ctx.c:62-73 | in the end each buffer was given back as often as it was handed out |
| `Bitmap.SetBits` | src/kdumpfile/bitmap.c:46-63 | sets the bits from start to end and no other |
| `Bitmap.ClearBits` | src/kdumpfile/bitmap.c:70-87 | clears the bits from start to end and no other |
| `Bitmap.ZerosIs` | src/kdumpfile/pfn.c:103-244 | counting leading or trailing zeroes finds the first bit set in either numbering |
| `PfnRegions.Skip` | src/kdumpfile/pfn.c:94-244 | finds the first bit of the wanted value, byte by byte or word by word, except that runs of set bits in MSB 0 numbering may stop at the next byte |
| `PfnRegions.FilePosition` | src/kdumpfile/pfn.c:246-294 | the position computed for a page is that of the object with its number among the mapped ones |
| `PfnRegions.TouchingCrosses` | src/kdumpfile/pfn.c:208-294 | regions touch only where a run was cut at a byte boundary, in MSB 0 numbering |
| `PfnRegions.CrossingTouches` | src/kdumpfile/pfn.c:208-294 | and every such run is cut |
| `PfnRegions.MaximalIff` | src/kdumpfile/pfn.c:246-294 | regions are maximal if and only if the bitmap is LSB 0 or no run crosses a byte boundary from within a byte |
| `PfnRegions.CutRun` | src/kdumpfile/pfn.c:208-244 | a bitmap of two bytes whose only run gives two regions |
| `PfnRegions.FileMap.FromBitmap` | src/kdumpfile/pfn.c:246-294 | the regions hold exactly the pages of the bitmap, in order, apart, at the positions that counting gives |
| `PfnRegions.FileMap.FindRegion` | src/kdumpfile/pfn.c:69-92 | binary search finds the first region that does not end before the page |
| `PfnRegions.FileMap.FindMapped` | src/kdumpfile/pfn.c:296-316 | the first mapped page from the given one on, or there is none |
| `PfnRegions.FileMap.FindUnmapped` | src/kdumpfile/pfn.c:318-336 | all pages before the answer are mapped; the answer itself is, exactly if the given page is in the first byte of a run that crosses a byte boundary in MSB 0 numbering, and then the answer is the next byte's first page |
| `PfnRegions.FileMap.GetBits` | src/kdumpfile/pfn.c:338-395 | afterwards the bit of every page in the interval is right, and no other byte has changed |
| `PfnIndex.LookupRight` | src/kdumpfile/elfdump.c:725-749 | for distinct numbers without neighbours that wrap, a search gives the position of the number, or says that there is none |
| `PfnIndex.ZeroNotFound` | src/kdumpfile/elfdump.c:671-692 | for distinct numbers with neighbours that wrap, zero is listed but not found |
| `PfnIndex.AllRightIffNoWrap` | src/kdumpfile/elfdump.c:616-749 | for distinct numbers, all searches are right if and only if no neighbours wrap |
| `PfnIndex.WrappingExample` | src/kdumpfile/elfdump.c:671-692 | the finished index of the last and the first number, in which neither is found |
| `PfnIndex.Map.Start` | src/kdumpfile/elfdump.c:616-626 | begins an empty list |
| `PfnIndex.Map.AddRange` | src/kdumpfile/elfdump.c:635-669 | the finished run is recorded as a range or a single, or nothing changes |
| `PfnIndex.Map.Add` | src/kdumpfile/elfdump.c:671-692 | the index being built covers the list with one more number |
| `PfnIndex.Map.End` | src/kdumpfile/elfdump.c:708-723 | ranges and singles are sorted and share the positions of the list |
| `PfnIndex.Map.Search` | src/kdumpfile/elfdump.c:725-749 | both binary searches are the lookup, which is right when no neighbours wrap |

## Findings

What the code does not keep, each with the exact condition.

- Ghost hits with two spare buffers. `reclaim_data` takes the buffer of the last unused entry; two discards
  while two entries are in flight, and then a ghost hit, leave an unused entry without a buffer at the end (`Overtakes`). From
  a sound state, a request goes wrong if and only if it `Starves`: the key is neither cached nor in flight, the cache is not
  full, a buffer is spare, the last unused entry owns no buffer, and the key is a ghost or no cached entry
  is unreferenced (`CacheRuns.GetSound`, `CacheRuns.RunSound`). If the key is a ghost, it goes in flight
  without a buffer; if not, `evict_entry` uses an index that the search has not set (`CacheRuns.DefinedIff`).
  `CacheOvertaking.OvertakingRun` is a run with both. So the comment that cached entries have data (`cache.c`, lines 49-50)
  holds in sound states, and one more insertion ends that run with a cached entry that has none.
- False recursion alarm. The guard fails translations that would end without it exactly for alarming capabilities:
  translating for the read callback starts with the same chain, but would stop where this translation goes on,
  behind its first place (`Translator.HarmlessIff`). The pairs of the space of the address and that of the stop are
  (KV, KPHYS), (KV, MACHPHYS) and (MACHPHYS, KPHYS) (`Translator.AlarmingPairs`, `Translator.FalseAlarm`).
- Chunks in a hole of a flattened file. What is not there is read if and only if no segment wrote any byte of the chunk, and the
  map is empty or the chunk ends within 2^64 bytes (`FlatMap.FlatFile.PlanChunk`). With an empty map that is a range from outside
  the range array, else a file offset from outside the offset array; `FlatMap.HoleExample` is a file with the latter.
- Wrapping page frame numbers. With distinct numbers the index is right for every search if and only if the first
  and the last 64-bit number are nowhere neighbours in the list (`PfnIndex.AllRightIffNoWrap`, `PfnIndex.WrappingExample`).
- MSB 0 runs cut at byte boundaries. Regions are maximal if and only if the numbering is LSB 0, or no run begins within
  a byte and goes on behind its end (`PfnRegions.MaximalIff`, `PfnRegions.CutRun`). `find_unmapped_pfn` returns a mapped page exactly
  if it is called for a page in the first byte of such a run (`PfnRegions.FileMap.FindUnmapped`); called for page 7 of `CutRun`'s bitmap it
  returns page 8, which is mapped.
- Searches over the end of what the root table spans. With sign extension, a search upwards or downwards is right for every memory if and only if
  the limit is in the canonical half that it starts in; the exceptions are tables of one level, when the search is for mapped
  addresses, and masks that leave no entry that can lead to a page, when it is for unmapped ones
  (`SearchLimits.LowestMappedIff`, `SearchLimits.LowestUnmappedIff`, `SearchLimits.HighestMappedIff`, `SearchLimits.BeyondHalf`).
  On Arm, addresses behind the block of the root table repeat it, but the search ends with the block. It is right for every table and memory if and only
  if the limit is in the block, or the search starts in the first page of the block, or in the last one downwards
  (`SearchLimits.ArmLowestMappedIff`, `SearchLimits.ArmLowestUnmappedIff`, `SearchLimits.ArmHighestMappedIff`, `SearchLimits.BehindBlock`).
- The comments of `act_ident_kphys` and `act_ident_machphys` in `sys.c` say that nothing is done if the method is set already; the code sets it
  in any case, and so does the model.
- The ring comment in `cache.c` says that split is the most recently used probed entry, which it is not when that partition is empty.

## Left out

- Cache.EntryCache.Flush: the entry destructor and `cache_free` are not modelled.
- Cache.EntryCache.constructor: an allocation that fails and elements of size zero are not modelled.
- Cache.EntryCache.GetEntry: reference counts and the hit and miss counters do not wrap; where `DefinedIff` says that no victim exists, the state after using the unset index is not modelled.
- FileCache.FileCache.GetRead: the mmap cache and its fallback are not modelled; files are regular and do not change, so that a read fails or returns all there is.
- FileCache.FileCache.Pread: file positions do not overflow.
- `fcache_get_chunk` and `fcache_get_fb`, which only assemble what `GetRead` gives.
- AddrMap.Map.Set: ranges that wrap behind the last address are not modelled, and neither is `addrxlat_map_copy`.
- FlatMap.FlatFile.Init: positions in the flattened file do not wrap at 2^63; `flatmap_init`, which checks the file header and loops over the files, is left out.
- FlatMap.FlatFile.PlanChunk: says how a chunk would be fetched, and does not fetch it.
- Steps.Machine.Step: page table formats other than x86_64, riscv64 and 32-bit Arm are not modelled, and neither are custom methods.
- SearchLimits.ArmHighestMappedIff: for more than two levels of tables, which short descriptors do not have, only the half of `LastPageRight` is stated.
- Search.LowestMapped: does not model which table pages a search drops from the read cache, nor messages; `highest_linear`, a heuristic loop over two searches and a conversion, is left out.
- Translator.Context.Op: the callbacks are those that read memory and the one that stores the address; others, and callbacks that use the context themselves, are not modelled, and neither are error messages and a missing translation system.
- Translator.Context.WalkMethod: custom methods are not modelled; a page table walk is the loop over levels, and `Steps.Machine` has the step structure.
- Translator.Context.Read32: words come from the callback in one piece, already in host byte order; the read cache in front of the callback is a model of its own, `ReadCache`.
- ReadCache.Slots.GetBuf: a page callback that itself reads through the cache is not modelled.
- ReadCache.Slots.ReadWord: requires that the word does not go over the end of its page, as the source does without a check; host byte order is not modelled.
- Layout.System.SetLayout: maps are kept as lists of updates, whose meaning `AddrMap.RunMeaning` gives; the failure of an allocation stops the list where it is, without further promises.
- Layout.System.ActDirect: the union of method parameters is read as zero where the method is not linear.
- PfnRegions.Skip: one method stands for the four functions, which differ in the wanted value and the bit numbering.
- PfnRegions.FileMap.FindMapped: one file only; the maps of split dumps are not modelled.
- PfnIndex.Map.Add: requires fewer than 2^63 pages, so that the signed lengths do not overflow.
- Attributes, the dump formats themselves, compression, the Python bindings, and locking, which is that of the callers.

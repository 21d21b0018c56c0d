# LibVMI 0.8, modelled and verified in Dafny

LibVMI reads the memory of a running virtual machine. This project models the parts of LibVMI 0.8
on which everything else rests, in the form the C code has (loops over arrays, objects with mutable
fields, recursive functions), and proves what they are for.

| file | models |
|---|---|
| `Words.dfy` | fixed-width words, masks and shifts on integers |
| `GuestMemory.dfy` | guest physical memory as the frames that can be mapped; frame 0 is never readable |
| `StringMatch.dfy` | Boyer-Moore search: suffix table, good-suffix and bad-character tables, both searches |
| `PageWalk.dfy` | the three page-table walks, against an independent radix walk (Intel SDM Vol. 3A, sections 4.3, 4.4 and 4.5) |
| `MemoryLayout.dfy` | the paging mode read off the guest's registers, and its translations in their terms |
| `PagingFailures.dfy` | guests on which a walk gives an address the processor does not |
| `AddressCache.dfy` | the hash-keyed virtual-to-physical cache over the walks |
| `CacheFailures.dfy` | two guests on which that cache answers wrongly |
| `PageCache.dfy` | the bounded page cache, with its list, its counter and its refresh path |
| `PageCacheBound.dfy` | when its bound holds, and how old its answers can be |
| `GuestIO.dfy` | what reads and writes compute, one byte at a time |
| `ArchitectureReads.dfy` | linear reads in the processor's terms |
| `Vmi.dfy` | the instance: page access, lookups, pid translation, page-mode search, reads, writes |
| `GuestStrings.dfy` | NUL-terminated strings, physical and virtual |
| `KdScan.dfy` | the two scans for the debugger block |
| `GrammarTables.dfy`, `GrammarAutomaton.dfy` | the LALR(1) tables and the automaton they encode |
| `ConfigLanguage.dfy` | the configuration language, its blocks and the entry they select |
| `ConfigParser.dfy` | the yyparse loop, the semantic actions and `vmi_parse_config` |
| `ConfigFile.dfy` | a parsed file, from token codes to the members of the entry |
| `ExportTable.dfy` | export lookup by name: binary search, linear fallback, ordinals |
| `ProcessList.dfy` | the two process-list walkers |

How the layers fit: a walk equals the architecture's walk, or equals it under an exact condition on
the entries it reads, and is uniform over a 4-KByte page; the page cache is then invisible over every
run, and the V2P cache over exactly the runs that stay within compatible pages; reads and writes
refine a byte-at-a-time copy; a write is read back; and where the walks are the architecture's, what
is read are the processor's bytes.
Inputs the code gets from elsewhere are parameters: the hypervisor's frames, the V2P hash, the
clock, the operating system's process-to-DTB lookup, `strtol` and `strtoull`.

Where the code and its names or comments disagree, the model follows the code:

- The V2P cache masks with a 32-bit value. So a frame above 4 GiB comes back wrong on the second
  lookup, and two pages of one address space whose addresses agree in bits 31:12 are taken for each
  other. `SecondLookup` and `TransparentExactlyWhen` say exactly when the cache is right,
  `CacheFailsAbove4GiB` and `CacheFailsOnAliases` give the two inputs.
- The page cache's "lru" list is first-in first-out (`HitsDoNotProtect`). With an age limit its bound
  fails on every guest that has more pages than the bound, frame 0 not counted
  (`BoundHoldsExactlyWhen`); with the KVM driver's settings a guest of 514 pages can make the cache
  hold 513 under a bound of 512 (`KvmCacheOverflows`).
- A write to physical memory passes only the low 32 bits of its length to the driver but reports
  the full count (`ReportedIsStored`); a write of 4 GiB is reported in full and stores nothing
  (`FourGiBAreLost`).
- The fast debugger-block scan never looks at a last, partial block (`LastBlockIsSkipped`).
- A cached DTB of 0 hides a process for good (`ZeroDtbIsNeverDropped`).
- A physical string is lost when the memory after it, in the same piece, cannot be read
  (`ReadStrPa`, `StringIsLost`).
- The linear export search accepts any name that is a prefix of the symbol (`ExactExactlyWhen`,
  `PrefixIsTaken`), and an ordinal is lost when the two bytes after it cannot be read
  (`OrdinalExactlyWhen`).
- CR4.PSE is recorded but not consulted: an entry with bit 7 is always taken for a 4-MByte page
  (`PassedOverTable` says when that is right all the same, `WalkIgnoresPse` gives a guest where it
  is not). Nor are the address bits 39:32 of a 4-MByte page, its PSE-36 bits (`NopaeIsRadixWalk`,
  `WalkIgnoresPse36`).
- In PAE mode tables are looked for at 32-bit addresses, and 2-MByte pages have 32-bit frames and
  4-KByte pages 36-bit ones (`PaeIsRadixWalk` says when that is right, `WalkTruncatesTables` and
  `WalkTruncatesLeaves` give guests where it is not).
- When a cached DTB is given up in the middle of a write, the bytes stored before lie in the old
  address space, and reading the range back does not find them (`SwitchedIsNotReadBack`).
- The Linux process walker never examines the node that leads back to the start
  (`LinuxMissesTheLastNode`, `LastProcessIsMissed`).

## Model

| member | source | states |
|---|---|---|
| StringMatch.PreBmBc | libvmi-0.8/libvmi/strmatch.c:45-54 | every byte's entry is the distance from its last occurrence before the final position to the end, or the pattern's length |
| StringMatch.Suffixes | libvmi-0.8/libvmi/strmatch.c:56-76 | every entry is the exact length of the longest common suffix of x[0..i] and x, shortcut included, and at most 2m bytes are compared in all |
| StringMatch.CopyFromWindow | libvmi-0.8/libvmi/strmatch.c:62-64 | inside the reuse window an entry shorter than the rest of the window is right for the current position too |
| StringMatch.ResumeInWindow | libvmi-0.8/libvmi/strmatch.c:65-73 | otherwise everything down to g is known to match, so resuming at g loses nothing |
| StringMatch.GoodShiftInside | libvmi-0.8/libvmi/strmatch.c:98-99 | a shift that keeps position i on the pattern is good exactly when the suffix table names it |
| StringMatch.GoodShiftOff | libvmi-0.8/libvmi/strmatch.c:88-96 | a shift that moves i off the pattern is good exactly when the rest of the pattern is a border |
| StringMatch.FillBorderShifts | libvmi-0.8/libvmi/strmatch.c:84-96 | the first pass fills a prefix of the table with the smallest border shifts and no border shift is left over |
| StringMatch.BordersAreSmallest | libvmi-0.8/libvmi/strmatch.c:84-96 | after it every entry is the smallest good shift among those that move off the pattern |
| StringMatch.ShiftRecorded | libvmi-0.8/libvmi/strmatch.c:98-99 | each store of the last loop keeps every entry smallest: a border shift is never replaced by a larger one |
| StringMatch.PreBmGs | libvmi-0.8/libvmi/strmatch.c:78-102 | for every mismatch position exactly the smallest shift of at least 1 under which the matched suffix agrees and the mismatched position differs or is off the pattern |
| StringMatch.OccurrenceIsGoodShift | libvmi-0.8/libvmi/strmatch.c:117-131 | an occurrence further right is a good shift, and aligns the mismatched text byte with an equal pattern byte |
| StringMatch.ShiftIsSafe | libvmi-0.8/libvmi/strmatch.c:117-131 | no occurrence starts before j plus the larger of the two table shifts |
| StringMatch.GoodShiftIsTight | libvmi-0.8/libvmi/strmatch.c:78-102 | no good-suffix entry could be larger: some text has its first match exactly there |
| StringMatch.Skipped | libvmi-0.8/libvmi/strmatch.c:117-131 | every step advances by at least 1 and at most m and skips no occurrence |
| StringMatch.Search | libvmi-0.8/libvmi/strmatch.c:117-133 | the search loop ends and returns the first match, or -1 exactly when there is none |
| StringMatch.BoyerMoore | libvmi-0.8/libvmi/strmatch.c:109-133 | the same for every pattern of at least one byte and every text |
| StringMatch.BoyerMooreData.FirstMatch | libvmi-0.8/libvmi/strmatch.c:174-195 | a prepared search returns the first match in every text it is given |
| PageWalk.Ia32eIndices | libvmi-0.8/libvmi/memory.c:49-52 | the four mask-and-shift helpers are the table index of their level times 8 |
| PageWalk.EntryAddressAt | libvmi-0.8/libvmi/memory.c:54-61 | base OR index is base plus index times 8 on an aligned base |
| PageWalk.Ia32eLeaves | libvmi-0.8/libvmi/memory.c:210-234 | the three page forms join the entry's base with the low 30, 21 or 12 address bits |
| PageWalk.Ia32eIsRadixWalk | libvmi-0.8/libvmi/memory.c:360-409 | v2p_ia32e, zero sentinels and all, is the recursive four-level walk of Intel SDM Vol. 3A section 4.5 with 1-GByte, 2-MByte and 4-KByte leaves, for every memory, CR3 and address |
| PageWalk.PaeIsRadixWalk | libvmi-0.8/libvmi/memory.c:328-358 | wherever the tables lie, v2p_pae is the walk of section 4.4 if and only if the entries it reads, at truncated addresses and with 32-bit and 36-bit frames, name the frame that the entries at the full addresses name, or neither names any |
| PageWalk.LowTablesExactlyWhen | libvmi-0.8/libvmi/memory.c:328-358 | with tables below 4 GiB that is so if and only if the leaf fits the code's 32-bit and 36-bit variables |
| PageWalk.CodeWalk | libvmi-0.8/libvmi/memory.c:328-358 | what v2p_pae answers is the frame named by the entries at the truncated addresses, with the offset |
| PageWalk.ArchLevel2 | libvmi-0.8/libvmi/memory.c:328-358 | what section 4.4 answers is the frame named by the entries at the full addresses, with the offset |
| PageWalk.NopaeIsRadixWalk | libvmi-0.8/libvmi/memory.c:295-326 | with PSE on, v2p_nopae is the walk of section 4.3 if and only if a large page leaves the PSE-36 bits clear |
| PageWalk.PageUniform | libvmi-0.8/libvmi/memory.c:202-234 | in every mode and for every leaf size, addresses of one 4-KByte page translate to one frame at their own offsets, or all to nothing |
| PageWalk.TranslateFramed | libvmi-0.8/libvmi/memory.c:295-409 | a walk depends on the frames of its own tables only, and which frames those are does too |
| GuestMemory.AlignedReadIsWhole | libvmi-0.8/libvmi/read.c:148-157 | an aligned read that fails delivers no byte, so a table entry is never half read |
| MemoryLayout.GetBit31 | libvmi-0.8/libvmi/convenience.c:77-86 | the int mask for bit 31 is sign-extended, so the answer is "at least 2^31" |
| MemoryLayout.Paging.GetMemoryLayout | libvmi-0.8/libvmi/core.c:181-296 | succeeds exactly when CR0 is at least 2^31 and CR3, CR4 and EFER or the address width are known; CR4 bit 5 clear gives legacy paging, set with EFER bit 8, or with an address width of 8 where EFER is unknown, IA-32e, otherwise PAE; flags and masked CR3 follow, and a failure resets everything |
| MemoryLayout.MaskKeepsTables | libvmi-0.8/libvmi/core.c:262-276 | the CR3 bits masked away are not part of the table's address |
| MemoryLayout.PassedOverTable | libvmi-0.8/libvmi/memory.c:295-326 | with PSE off and bit 7 set, v2p_nopae is the walk of section 4.3 if and only if the page table it passes over maps the address where the 4-MByte page would |
| MemoryLayout.LegacyExactlyWhen | libvmi-0.8/libvmi/memory.c:295-326 | the exact condition for every legacy walk, PSE on or off |
| MemoryLayout.LayoutIsArchitecture | libvmi-0.8/libvmi/core.c:260-275 | from the registers on, translations are the processor's: always in IA-32e mode, in PAE mode if and only if the entries the walk reads name the processor's frame, in legacy mode if and only if a large page leaves the PSE-36 bits clear or, with PSE off, the passed-over page table agrees; pae and page_mode agree |
| PagingFailures.WalkIgnoresPse | libvmi-0.8/libvmi/memory.c:295-326 | a guest without PSE on which an untranslated address is translated |
| PagingFailures.WalkIgnoresPse36 | libvmi-0.8/libvmi/memory.c:295-326 | a guest with PSE on which a 4-MByte page above 4 GiB is taken for one below |
| PagingFailures.WalkTruncatesTables | libvmi-0.8/libvmi/memory.c:122-130 | a PAE guest with a table above 4 GiB on which an untranslated address is translated |
| PagingFailures.WalkTruncatesLeaves | libvmi-0.8/libvmi/memory.c:216-226 | a PAE guest on which a 2-MByte page above 4 GiB is taken for one below |
| AddressCache.PageMask32 | libvmi-0.8/libvmi/cache.c:244-250 | the mask with a 32-bit page size keeps bits 31:12 and nothing above |
| AddressCache.MaskTellsPages | libvmi-0.8/libvmi/cache.c:262-284 | below 4 GiB two addresses are masked alike exactly when they share a page |
| AddressCache.SetIsSound | libvmi-0.8/libvmi/cache.c:286-296 | storing a walk's answer keeps every entry what looking its own address up leaves behind, also when it overwrites a colliding key |
| AddressCache.HitIsWalk | libvmi-0.8/libvmi/cache.c:262-284 | when no entry is wrong for an address, a hit is the walk's answer or unreadable, whatever the hash and the size of the address |
| AddressCache.LookupIsWalk | libvmi-0.8/libvmi/memory.c:411-447 | one cached lookup answers as the walk when no entry is wrong for the address |
| AddressCache.LookupKeepsSound | libvmi-0.8/libvmi/memory.c:411-447 | every lookup, right or wrong, keeps the table sound |
| AddressCache.LookupLeaves | libvmi-0.8/libvmi/memory.c:411-447 | a usable hit is the answer and changes nothing; otherwise the walk answers, a translation is stored for its page with bits 31:12 of its frame, an unusable entry without one is gone, and no other key changes |
| AddressCache.DeletedIsGone | libvmi-0.8/libvmi/cache.c:298-314 | after a delete the page is not found, and no other key changes |
| AddressCache.SecondLookup | libvmi-0.8/libvmi/memory.c:411-447 | for any two lookups, with no bound on addresses or frames: the second is right if and only if the DTBs differ or the first leaves nothing wrong for it |
| AddressCache.LowFramesAreCompatible | libvmi-0.8/libvmi/cache.c:262-296 | a page with a frame below 4 GiB is wrong only for pages that agree with it in bits 31:12 |
| AddressCache.NearbyDoesNotAlias | libvmi-0.8/libvmi/cache.c:244-250 | addresses less than 4 GiB less a page apart never alias, wrap-around included |
| AddressCache.CacheIsTransparent | libvmi-0.8/libvmi/memory.c:411-447 | over every run of lookups, truthful adds, deletes and flushes within pairwise compatible pages the answers are those without a cache, for any hash, any 64-bit addresses and with collisions |
| AddressCache.TransparentExactlyWhen | libvmi-0.8/libvmi/memory.c:411-447 | all runs within a set of pages are transparent if and only if the pages are pairwise compatible |
| AddressCache.AliasFreeIsCompatible | libvmi-0.8/libvmi/cache.c:262-296 | pages with low frames, no two of one DTB aliasing, are compatible |
| AddressCache.OtherPagesAreSafe | libvmi-0.8/libvmi/cache.c:262-284 | with no bound on addresses, a page whose masked address or DTB differs never disturbs another, even under one key |
| AddressCache.RepeatedLookup | libvmi-0.8/libvmi/cache.c:286-296 | looking one page up twice: right if and only if nothing was cached, the frame is below 4 GiB, or the truncated frame is unreadable |
| CacheFailures.CacheFailsAbove4GiB | libvmi-0.8/libvmi/cache.c:262-296 | a guest on which the second lookup of 0xA00000 is wrong |
| CacheFailures.CacheFailsOnAliases | libvmi-0.8/libvmi/cache.c:262-284 | a guest with low frames on which 0x100001000 gets the frame of 0x1000 |
| PageCache.MemoryCache.CleanCache | libvmi-0.8/libvmi/driver/memory_cache.c:76-90 | the eviction's whole new state |
| PageCache.MemoryCache.UnlinkOldest | libvmi-0.8/libvmi/driver/memory_cache.c:80-85 | exactly the oldest cells leave the list, in order, until half the bound is left |
| PageCache.MemoryCache.RemoveEntries | libvmi-0.8/libvmi/driver/memory_cache.c:69-74 | exactly the unlinked keys leave the table |
| PageCache.MemoryCache.ValidateAndReturnData | libvmi-0.8/libvmi/driver/memory_cache.c:92-108 | a stale entry is fetched again and its key listed a second time, because removal compares pointers; a fresh one is returned untouched |
| PageCache.MemoryCache.AddEntry | libvmi-0.8/libvmi/driver/memory_cache.c:184-195 | a miss makes room and lists the new page in front |
| PageCache.MemoryCache.Insert | libvmi-0.8/libvmi/driver/memory_cache.c:164-197 | result and whole new state of every insertion |
| PageCache.MemoryCache.Destroy | libvmi-0.8/libvmi/driver/memory_cache.c:205-211 | the whole state left by a destroy, bound restored |
| PageCache.InsertionCases | libvmi-0.8/libvmi/driver/memory_cache.c:92-197 | every case of an insertion in its own terms: unaligned, held and no older than the limit, held and older, refused at the end of an HVM guest's memory, added with room, added to a full cache, with the whole new table, list and counter |
| PageCache.EvictionIsExact | libvmi-0.8/libvmi/driver/memory_cache.c:76-90 | an eviction removes one page per cell if and only if the cells hold distinct cached pages |
| PageCache.CleanedKeepsLinked | libvmi-0.8/libvmi/driver/memory_cache.c:76-90 | eviction keeps every cached page listed and the counter within the list |
| PageCache.InsertedKeepsLinked | libvmi-0.8/libvmi/driver/memory_cache.c:164-197 | so does every insertion, with or without refresh |
| PageCache.InsertedIsFifo | libvmi-0.8/libvmi/driver/memory_cache.c:164-197 | without refresh counter, list and table have one size within the bound, keys are distinct, and a full cache keeps exactly its newest half |
| PageCache.DestroyEmpties | libvmi-0.8/libvmi/driver/memory_cache.c:205-211 | destroy leaves nothing in a cache that never refreshed |
| PageCache.InsertedIsFaithful | libvmi-0.8/libvmi/driver/memory_cache.c:164-197 | an insertion returns what the driver would, or refuses what the size guard refuses |
| PageCache.RunIsTransparent | libvmi-0.8/libvmi/driver/memory_cache.c:164-197 | over every run the cache is invisible, and without refresh the bound and distinctness hold throughout |
| PageCache.FifoRunKeeps | libvmi-0.8/libvmi/driver/memory_cache.c:76-90 | a page stays cached for at least max/2 requests after it was listed |
| PageCache.HitsDoNotProtect | libvmi-0.8/libvmi/driver/memory_cache.c:169-181 | on every full cache, whatever pages were used last, a miss evicts exactly the older half |
| PageCacheBound.BoundHolds | libvmi-0.8/libvmi/driver/memory_cache.c:164-197 | without an age limit, or with no more pages than the bound besides frame 0, the bound holds over every run of requests that reach the cache, which are for other pages than 0 and not back in time |
| PageCacheBound.RefreshBreaksTheBound | libvmi-0.8/libvmi/driver/memory_cache.c:92-108 | for every age limit, every bound and every guest with more pages than that besides frame 0, such a run that ends with one page too many |
| PageCacheBound.BoundHoldsExactlyWhen | libvmi-0.8/libvmi/driver/memory_cache.c:76-108 | the bound holds over every such run if and only if there is no age limit or the range guard lets in no more than the bound's number of pages besides frame 0 |
| PageCacheBound.KvmCacheOverflows | libvmi-0.8/libvmi/driver/kvm.c:324-335 | with the KVM driver's settings every guest of 514 pages or more can make the cache hold 513 |
| PageCacheBound.AnswersAreRecent | libvmi-0.8/libvmi/driver/memory_cache.c:92-108 | over every run against a changing driver, while the clock does not run backwards, each answer is one the driver gave at a time that is past and, with an age limit, not longer past than the limit |
| GuestIO.LongestRunUnique | libvmi-0.8/libvmi/read.c:39-81 | the byte-at-a-time specification of a read determines its result |
| GuestIO.VirtChunk | libvmi-0.8/libvmi/read.c:96-126 | within a page a translated address reads consecutive bytes of one frame |
| GuestIO.CopyIsWriteRun | libvmi-0.8/libvmi/driver/xen.c:117-126 | a copy into a mapped page stores its bytes one after another |
| GuestIO.WriteRunElsewhere | libvmi-0.8/libvmi/write.c:48-93 | bytes that are no target keep their value |
| GuestIO.WriteRunLast | libvmi-0.8/libvmi/write.c:48-93 | of several stores to one byte the last one stays |
| GuestIO.WalkIsStable | libvmi-0.8/libvmi/write.c:48-93 | writes outside the page tables change no translation |
| GuestIO.StoreKeepsSound | libvmi-0.8/libvmi/write.c:48-93 | nor do they make a cached translation wrong |
| GuestIO.CompatibleIsStable | libvmi-0.8/libvmi/write.c:48-93 | nor do they change which pages are compatible |
| GuestIO.SwitchBeyond | libvmi-0.8/libvmi/memory.c:485-501 | a DTB that does not translate an address is given up at a page boundary only |
| GuestIO.TargetsChunk | libvmi-0.8/libvmi/write.c:71-83 | the bytes of one page of a write are stored one after another, through one DTB |
| GuestIO.WrittenIsRead | libvmi-0.8/libvmi/write.c:48-93 | every byte of a written range, read through the DTB it was stored through, is the data when the targets are distinct readable bytes outside the page tables |
| Vmi.StalePidIsRecovered | libvmi-0.8/libvmi/memory.c:469-501 | with no cached zero, a failed translation leaves no entry for the pid, answers as a freshly found DTB does, and made at most one retry |
| Vmi.ZeroDtbIsNeverDropped | libvmi-0.8/libvmi/memory.c:485-501 | a translatable process is translated if and only if no 0 is cached for its pid |
| Vmi.TruthfulPid | libvmi-0.8/libvmi/memory.c:529-547 | a pid whose cached DTB is current translates by it and keeps it current, with and without the cache compiled in |
| Vmi.TranslatedByUsed | libvmi-0.8/libvmi/memory.c:485-501 | whatever is cached, a translation goes through the cached or the fresh DTB, and that is the one the next translation tries first |
| Vmi.TurnIs | libvmi-0.8/libvmi/memory.c:485-501 | over a range, every byte before the first untranslated one goes through the DTB tried first and every other one through the fresh DTB |
| Vmi.NextTurn | libvmi-0.8/libvmi/memory.c:411-447 | while a range is gone through, what its earlier pages leave in the cache makes no later page wrong, also across a change of DTB |
| Vmi.ShortRangeIsAnswerable | libvmi-0.8/libvmi/cache.c:244-250 | a range of less than 4 GiB cannot disturb itself |
| Vmi.LowFramesFit | libvmi-0.8/libvmi/cache.c:262-284 | cached pages with low frames are wrong only for pages they alias |
| Vmi.ShortRangeIsHeldTogether | libvmi-0.8/libvmi/cache.c:262-296 | the pages of a range of less than 4 GiB with low frames can be looked up in any order, and again |
| Vmi.ReportedIsStored | libvmi-0.8/libvmi/write.c:34-46 | no more is reported than stored if and only if the count fits 32 bits or a frame of the truncated range cannot be mapped |
| Vmi.FourGiBAreLost | libvmi-0.8/libvmi/write.c:34-46 | a write of any multiple of 4 GiB is reported in full and stores nothing |
| Vmi.UnknownIsEmpty | libvmi-0.8/libvmi/os/windows/core.c:211-216 | while no paging mode is known the V2P cache is empty |
| Vmi.Instance.constructor | libvmi-0.8/libvmi/core.c:394-484 | a fresh instance has empty caches, is valid and holds what it was given |
| Vmi.EmptyCacheIsAnswerable | libvmi-0.8/libvmi/memory.c:411-447 | with nothing cached every range of less than 4 GiB whose walks are defined can be gone through |
| Vmi.Instance.FreshMayGoThrough | libvmi-0.8/libvmi/memory.c:411-447 | a fresh instance of an IA-32e guest can go through every such range, for every process |
| Vmi.Instance.ReadPageFrame | libvmi-0.8/libvmi/memory.c:549-557 | through the page cache a frame reads as guest memory has it; frame 0 never does |
| Vmi.Instance.ReadPa | libvmi-0.8/libvmi/read.c:39-81 | delivers the longest readable run of bytes from the address, all of it or up to the first unreadable byte, and touches nothing else of the buffer |
| Vmi.Instance.ReadXPa | libvmi-0.8/libvmi/read.c:148-157 | the little-endian word the walks read, or failure on a short read |
| Vmi.Instance.PagetableLookup | libvmi-0.8/libvmi/memory.c:411-447 | the answer and the cache's new state for every defined walk; the answer is the walk's when no cached entry is wrong for the address |
| Vmi.Instance.FindPageMode | libvmi-0.8/libvmi/os/windows/core.c:58-91 | called while no mode is known: the first mode that finds its symbol is chosen and no translation of another mode survives in the cache |
| Vmi.Instance.TranslateKv2p | libvmi-0.8/libvmi/memory.c:450-467 | kernel addresses go through kpgd when it is set, through CR3 when it is 0, and nowhere when both are 0 |
| Vmi.Instance.FindDtb | libvmi-0.8/libvmi/memory.c:529-547 | the cached DTB or a fresh one, which is cached unless it is 0; always a fresh one where the cache is compiled out |
| Vmi.Instance.TranslateUv2pNocache | libvmi-0.8/libvmi/memory.c:469-483 | one lookup through the DTB found for the pid, which is dropped again when that fails; the effect on both caches |
| Vmi.Instance.TranslateUv2p | libvmi-0.8/libvmi/memory.c:485-501 | the retry protocol, with its effect on the pid cache and the DTBs it looked up, at most two; the fresh DTB matters only where the first one translates nothing |
| Vmi.Instance.TranslateFor | libvmi-0.8/libvmi/read.c:98-103 | a read's translation is through the DTB tried first or, where that DTB is not 0 and translates nothing, through the fresh one; the next translation is tried through the same DTB |
| Vmi.Instance.ReadVa | libvmi-0.8/libvmi/read.c:83-134 | delivers the longest run of bytes that translate to readable frames and stops exactly at the first that does not; the bytes come through the DTB tried first up to the first page it does not translate, and through the fresh one from there on; for pid 0 that is kpgd or else CR3, for another pid the DTB cached for it and then the operating system's; which DTB is tried next |
| Vmi.Instance.XenPutMemory | libvmi-0.8/libvmi/driver/xen.c:95-133 | stores byte by byte until done or until a frame cannot be mapped |
| Vmi.Instance.WritePa | libvmi-0.8/libvmi/write.c:34-46 | of the low 32 bits of the count, every byte up to the first frame that cannot be mapped holds the data afterwards and no other byte of memory changes; the whole count is reported if all of them could be stored, otherwise 0 |
| Vmi.Instance.WritePaReadBack | libvmi-0.8/libvmi/write.c:34-46 | vmi_read_pa then reads the data back, up to the first byte in frame 0 or in a frame that cannot be mapped |
| Vmi.StoredByte | libvmi-0.8/libvmi/driver/xen.c:95-133 | a byte is stored when its frame and those of all bytes before it can be mapped |
| Vmi.StoredElsewhere | libvmi-0.8/libvmi/driver/xen.c:95-133 | and no other byte of memory changes |
| Vmi.Instance.WritePage | libvmi-0.8/libvmi/write.c:58-89 | one page of a write: stored at its translation through the DTB whose turn it is, or nothing where there is none or no mappable frame |
| Vmi.Instance.WriteVa | libvmi-0.8/libvmi/write.c:48-93 | stores the longest run that translates to mappable frames and nothing else, through the DTB tried first up to the first page it does not translate and through the fresh one from there on, and reports its length; for pid 0 that is kpgd or else CR3; which DTB is tried next |
| Vmi.Instance.WriteReadBack | libvmi-0.8/libvmi/write.c:48-93 | a write followed by a read of what it reported gives the data back, through a stale cached DTB too, when no change of DTB falls inside the write, and every other byte of memory is unchanged |
| Vmi.ReadBackRun | libvmi-0.8/libvmi/write.c:48-93 | after such a write the DTB tried next translates the whole range and leads to the data |
| Vmi.SwitchedIsNotReadBack | libvmi-0.8/libvmi/write.c:48-93 | when the DTB changes inside a write, the bytes before the change are not read back: the read delivers what the new address space held before the write, wherever that is not itself written |
| ArchitectureReads.VirtByteIsArch | libvmi-0.8/libvmi/read.c:96-126 | a byte whose walk agrees is the one the processor finds, and a missing one is missing there too |
| ArchitectureReads.ReadIsArchitecture | libvmi-0.8/libvmi/read.c:83-134 | from the registers to the bytes: a read through the guest's CR3 delivers the longest run of the processor's bytes, always in IA-32e mode and elsewhere where the walks of the range agree |
| ArchitectureReads.SwitchedReadIsArchitecture | libvmi-0.8/libvmi/read.c:83-134 | in IA-32e mode the same for a process whose cached DTB is given up on the way |
| GuestStrings.EndIsUnique | libvmi-0.8/libvmi/read.c:271-326 | the specification determines the string |
| GuestStrings.ReadStrVa | libvmi-0.8/libvmi/read.c:271-326 | the bytes up to the first NUL or the first byte that cannot be read, through the DTB tried first and then the fresh one if need be; for pid 0 through kpgd or else CR3 |
| GuestStrings.ReadStrPa | libvmi-0.8/libvmi/read.c:192-222 | ends on every memory, and returns a terminated string if and only if the whole pieces that cover it can be read |
| GuestStrings.ShortPiece | libvmi-0.8/libvmi/read.c:205-217 | a piece that cannot be read in full loses every string that ends in it or later |
| GuestStrings.Finished | libvmi-0.8/libvmi/read.c:203-222 | a NUL in a piece read in full ends the one string there is |
| GuestStrings.StringIsLost | libvmi-0.8/libvmi/read.c:192-222 | memory on which a readable, terminated string is not returned |
| KdScan.FindFast | libvmi-0.8/libvmi/os/windows/kpcr.c:523-566 | the lowest place inside a fully readable block from 4096 on with the bytes 00 f8 ff ff "KDBG" less 0xc in IA-32e mode, or eight zeros and "KDBG" less 8 in the others, or 0 |
| KdScan.FindSlow | libvmi-0.8/libvmi/os/windows/kpcr.c:497-521 | the lowest aligned place of the same bytes, less the same distance, or 0 |
| KdScan.SlowHitIsFastHit | libvmi-0.8/libvmi/os/windows/kpcr.c:497-566 | the fast scan sees a slow hit if and only if it stays inside its block and the block is readable |
| KdScan.FastIsNotLater | libvmi-0.8/libvmi/os/windows/kpcr.c:497-566 | and is then never later |
| KdScan.LastBlockIsSkipped | libvmi-0.8/libvmi/os/windows/kpcr.c:543-559 | a last block that guest memory does not fill is never searched |
| GrammarAutomaton.TablesAreAutomaton | libvmi-0.8/libvmi/config/grammar.c:810-890 | the compressed tables encode one automaton: what every state does on every symbol |
| GrammarAutomaton.GotoIs | libvmi-0.8/libvmi/config/grammar.c:1969-1979 | the goto of a rule never depends on the state below |
| ConfigLanguage.Int32 | libvmi-0.8/libvmi/config/grammar.c:1747-1914 | a number that does not fit an int is stored modulo 2^32 |
| ConfigLanguage.TruncatedIs | libvmi-0.8/libvmi/config/grammar.c:1735-1742 | of a name or text the first 1023 characters are kept, or all of them |
| ConfigLanguage.ReadItem | libvmi-0.8/libvmi/config/grammar.y:310-353 | an item is read as its assignment and takes effect |
| ConfigLanguage.ReadBlock | libvmi-0.8/libvmi/config/grammar.y:300-308 | a whole block is read as its entry, which replaces the result if it has the target's name |
| ConfigLanguage.SpelledIsAccepted | libvmi-0.8/libvmi/config/grammar.y:295-353 | every spelled sequence of blocks is accepted and selects what its blocks select |
| ConfigLanguage.CutBlocks | libvmi-0.8/libvmi/config/grammar.y:295-353 | every file is whole blocks and a remainder; it is accepted when the remainder is empty, and the entry is the whole blocks' either way |
| ConfigLanguage.AcceptedLanguage | libvmi-0.8/libvmi/config/grammar.y:295-353 | the accepted files are exactly (WORD OBRACE (assignment? SEMICOLON)* EBRACE)* |
| ConfigLanguage.LastBlockWins | libvmi-0.8/libvmi/config/grammar.c:300-312 | the last block with the target's name is the result, whatever came before |
| ConfigLanguage.NothingSelected | libvmi-0.8/libvmi/config/grammar.c:300-312 | without such a block the result stays |
| ConfigLanguage.LastAssignmentWins | libvmi-0.8/libvmi/config/grammar.c:1747-1947 | within a block the last assignment to a member decides it, members of the offsets union aliased as the C layout has them |
| ConfigLanguage.UnwrittenIsKept | libvmi-0.8/libvmi/config/grammar.c:1747-1947 | a member no assignment writes keeps its value |
| ConfigLanguage.ParsedMember | libvmi-0.8/libvmi/config/grammar.c:319-328 | a member of the parsed entry is the last assignment to it in the last block of the target, and no other block matters |
| ConfigLanguage.ParsedDefault | libvmi-0.8/libvmi/config/grammar.c:319-328 | a member that block does not assign is zero: nothing leaks between blocks |
| ConfigLanguage.ParsedNothing | libvmi-0.8/libvmi/config/grammar.c:319-328 | without a block of the target the entry is all zero |
| ConfigParser.PopStack | libvmi-0.8/libvmi/config/grammar.c:1962-1964 | the stack under a state is determined by the state, also after a pop |
| ConfigParser.ShiftKeeps | libvmi-0.8/libvmi/config/grammar.c:1688-1704 | a shift leaves the outcome still to come unchanged and keeps the stack shape |
| ConfigParser.ReduceKeeps | libvmi-0.8/libvmi/config/grammar.c:1717-1982 | so does every reduction together with its semantic action |
| ConfigParser.FailureIsExpected | libvmi-0.8/libvmi/config/grammar.c:1707-1711 | where the automaton fails, the file does not parse |
| ConfigParser.ReduceRank | libvmi-0.8/libvmi/config/grammar.c:1717-1982 | at most a bounded number of reductions follow each other |
| ConfigParser.ShallowStack | libvmi-0.8/libvmi/config/grammar.c:1570-1640 | the stack never holds more than ten states, so its growth code cannot be reached |
| ConfigParser.NoErrorToken | libvmi-0.8/libvmi/config/grammar.c:2087-2112 | no state can shift the error symbol, so every syntax error aborts |
| ConfigParser.ConfigParser.YyLex | libvmi-0.8/libvmi/config/grammar.c:1655-1660 | the next token of the stream |
| ConfigParser.ConfigParser.EntryDone | libvmi-0.8/libvmi/config/grammar.c:300-312 | keeps a finished block that has the target's name and clears the working entry |
| ConfigParser.ConfigParser.SemanticAction | libvmi-0.8/libvmi/config/grammar.c:1733-1947 | each rule's effect on the two entries, from the values of its right-hand side |
| ConfigParser.ConfigParser.Lookahead | libvmi-0.8/libvmi/config/grammar.c:1655-1671 | reads a token only when there is none, and loses none |
| ConfigParser.ConfigParser.Decide | libvmi-0.8/libvmi/config/grammar.c:1643-1711 | does what the automaton says, looking ahead only where the state needs it |
| ConfigParser.ConfigParser.Shift | libvmi-0.8/libvmi/config/grammar.c:1688-1704 | pushes state and value and keeps the loop's invariant |
| ConfigParser.ConfigParser.ReduceBy | libvmi-0.8/libvmi/config/grammar.c:1717-1982 | pops, acts, goes on, and keeps the loop's invariant |
| ConfigParser.ConfigParser.YyParse | libvmi-0.8/libvmi/config/grammar.c:1564-1982 | for every token stream the parser ends, with the outcome of reading the file block by block |
| ConfigParser.ConfigParser.VmiParseConfig | libvmi-0.8/libvmi/config/grammar.c:319-328 | returns 0 exactly for the files of the grammar, with the entry they select for the target |
| ConfigFile.NameMatches | libvmi-0.8/libvmi/config/grammar.c:300-312 | a name matches the target exactly when they are equal, or when the target is the 1023 characters kept of a longer name |
| ConfigFile.UnusedTexts | libvmi-0.8/libvmi/config/grammar.c:1655-1671 | texts of tokens that no action uses do not matter |
| ConfigFile.FileLexemes | libvmi-0.8/libvmi/config/grammar.c:359-386 | the tokens of a file are the lexemes of its blocks, token code by token code |
| ConfigFile.PlaceOfSetting | libvmi-0.8/libvmi/config/config_parser.h:30-58 | the last setting of a member of the last domain with the target's name decides that member |
| ConfigFile.ParsedSetting | libvmi-0.8/libvmi/config/grammar.c:1735-1941 | for each of the eighteen keys, from its token code: which member of the parsed entry holds its value, 32 bits of it, or 64 for kdvb and sysproc, or the text as written if shorter than 1024 characters |
| ConfigFile.ParsedUnset | libvmi-0.8/libvmi/config/grammar.c:319-328 | a member that domain does not set is zero or empty |
| ConfigFile.ParsedOther | libvmi-0.8/libvmi/config/grammar.c:319-328 | a file without a domain of the target's name gives an all-zero entry |
| ExportTable.StrNCmpIsStart | libvmi-0.8/libvmi/os/windows/peparse.c:265-268 | the bounded comparison is 0 exactly when the first n characters are the same |
| ExportTable.StrNCmpIsPrefix | libvmi-0.8/libvmi/os/windows/peparse.c:265-268 | the linear search's comparison is the prefix test |
| ExportTable.StrCmpIsOrder | libvmi-0.8/libvmi/os/windows/peparse.c:303-312 | the comparison is below 0 exactly when the first string is a proper prefix of the second or smaller at the first position where they differ |
| ExportTable.FindAonIdxBin | libvmi-0.8/libvmi/os/windows/peparse.c:279-315 | ends, with an index inside the bounds or -1 |
| ExportTable.BinaryHitIsExact | libvmi-0.8/libvmi/os/windows/peparse.c:279-315 | a hit is the symbol itself on any table |
| ExportTable.BinaryFinds | libvmi-0.8/libvmi/os/windows/peparse.c:279-315 | on a table that ascends in that order every listed symbol is found at its own index |
| ExportTable.BinaryFindsExactly | libvmi-0.8/libvmi/os/windows/peparse.c:279-315 | on any table the binary search comes to an entry exactly when it holds the symbol and every name probed on the way lies on the right side of it |
| ExportTable.GetAonIndexLinear | libvmi-0.8/libvmi/os/windows/peparse.c:253-276 | the first name that is a prefix of the symbol, or -1 if there is none |
| ExportTable.GetAonIndex | libvmi-0.8/libvmi/os/windows/peparse.c:327-337 | the binary hit, else the first prefix |
| ExportTable.SortedLookup | libvmi-0.8/libvmi/os/windows/peparse.c:327-337 | on a table that ascends in that order a listed symbol gets its own index, any other the first prefix or -1 |
| ExportTable.PrefixesAreToldApart | libvmi-0.8/libvmi/os/windows/peparse.c:327-337 | a sorted table with a name and a prefix of it, each found at its own index |
| ExportTable.FailureMeansNoPrefix | libvmi-0.8/libvmi/os/windows/peparse.c:327-337 | on any table the lookup fails if and only if no name is a prefix of the symbol |
| ExportTable.PresentIsReported | libvmi-0.8/libvmi/os/windows/peparse.c:327-337 | on any table a listed symbol is never reported missing |
| ExportTable.ExactExactlyWhen | libvmi-0.8/libvmi/os/windows/peparse.c:327-337 | on any table the index is the symbol's own if and only if the table has an entry for it that the bisection is led to, every name probed on the way lying on its side, or before which no prefix of the symbol is listed |
| ExportTable.PrefixIsTaken | libvmi-0.8/libvmi/os/windows/peparse.c:327-337 | a table on which a listed symbol gets the index of its prefix |
| ExportTable.OrdinalExactlyWhen | libvmi-0.8/libvmi/os/windows/peparse.c:236-250 | a readable ordinal is returned if and only if the two bytes after it can be read |
| ExportTable.LastOrdinalIsLost | libvmi-0.8/libvmi/os/windows/peparse.c:236-250 | memory on which a readable ordinal is not found |
| ExportTable.WindowsExportToRva | libvmi-0.8/libvmi/os/windows/peparse.c:445-471 | the chain of the three lookups, each failure reported; a symbol without a listed prefix gets nothing |
| ExportTable.AbsentResolvesToNone | libvmi-0.8/libvmi/os/windows/peparse.c:457-461 | a symbol that is not listed, nor any prefix of it, has no index and resolves to nothing |
| ExportTable.ExportResolves | libvmi-0.8/libvmi/os/windows/peparse.c:445-471 | in a well-formed directory a listed symbol resolves to the function its ordinal selects |
| ProcessList.LinkLeadsToPid | libvmi-0.8/libvmi/os/windows/memory.c:80-81 | from the link of a process structure at task, at task + tasksOffset, the walkers come to the word at task + pidOffset |
| ProcessList.LinkHasTask | libvmi-0.8/libvmi/os/windows/memory.c:70-81 | every link belongs to a process structure |
| ProcessList.AnswerHoldsPid | libvmi-0.8/libvmi/os/windows/memory.c:83-85 | for any pid but 0 the answer is the link of the first structure whose word at pidOffset is the pid, and 0 only if no examined structure has it |
| ProcessList.WindowsGetEprocess | libvmi-0.8/libvmi/os/windows/memory.c:63-95 | on every ring of process structures the walk ends with the link of the first one that holds the pid, or 0 when none does |
| ProcessList.LinuxGetTaskstructAddr | libvmi-0.8/libvmi/os/linux/memory.c:34-64 | the same for all processes but the one that leads back to the start |
| ProcessList.LinuxMissesTheLastNode | libvmi-0.8/libvmi/os/linux/memory.c:34-64 | the Linux walker is right if and only if that process is not the first match |
| ProcessList.LastProcessIsMissed | libvmi-0.8/libvmi/os/linux/memory.c:34-64 | a ring of two with links and pids at different offsets, on which the Windows walker finds both processes and the Linux walker misses the second |
| ProcessList.ReadPid | libvmi-0.8/libvmi/os/windows/memory.c:80-86 | an unreadable pid matches only while the variable still holds its initial zero |

## Left out

- Vmi.Instance.FindPageMode: the symbol lookup of each trial is represented by the page-table lookups it makes and by its verdict.
- Vmi.Instance.WriteVa: the page-table entries that the write and the cached translations use must lie outside the bytes written; a write into page tables in use changes translations that the V2P cache keeps. The same holds for WritePage and WriteReadBack.
- Vmi.Instance.WritePaReadBack: the same restriction, and counts below 2^32; of longer ones WritePa states what is stored.
- Vmi.Instance.TranslateUv2p: lookups that meet a wrong cached entry, whose answers SecondLookup and RepeatedLookup give, are excluded here and in the reads and writes built on it.
- Vmi.Instance.ReadXPa: the bytes that a short read leaves in the variable are not modelled; for aligned words there are none (AlignedReadIsWhole).
- ProcessList.ReadPid: a pid that crosses into an unreadable page, of which the code keeps the readable bytes, counts as unreadable as a whole.
- Vmi.Instance.ReadPageFrame: guests with frames that the page cache's size guard rejects are excluded from the instance; PageCache covers the rejection itself.
- Vmi.Instance.WritePa: a data sequence stands for the buffer pointer.
- GuestStrings.ReadStrVa: the position of the end is a parameter below 2^31, because the loop need not end on a guest that maps readable memory without NUL at every address, and its int length wraps there.
- ExportTable.FindAonIdxBin: tables of 2^30 names or more, on which low + high overflows int, are excluded.
- ExportTable.WindowsExportToRva: the export directory is a parameter; parsing the PE headers is not part of this model.
- ConfigParser.ConfigParser.YyLex: the flex scanner is not part of this model; the parser starts from tokens.
- PageWalk.PaeIsRadixWalk: a walk that uses a C variable left unset by a failed read has no value in the model (None) and is excluded; the same holds for NopaeIsRadixWalk.
- KdScan.FindFast: memory sizes above 2^64 - 2^20 + 4096, on which the block counter wraps, are excluded.
- KdScan.FindSlow: memory sizes above 2^64 - 4, on which its address wraps, are excluded.
- Wall-clock time, allocation and freeing, pointer ownership, debug output and NULL-buffer checks.
- The KVM and file drivers, hypercalls, libvirt and xenstore: guest memory is an abstract map of frames.
- The symbol cache, which repeats the PID cache's logic, and the choice of the V2P hash: the hash is any function.
- Kernel-symbol tables (kpcr.c's offsets, System.map) and the register tables: long case lists.
- Unicode strings and iconv, Python bindings, examples, and the hypercall front ends outside libvmi-0.8.
- Bison's error messages, debug traces and error counters; none affects the result.
- How an operating system finds the DTB of a pid beyond the process list: a parameter of the instance.

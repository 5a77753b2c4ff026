# MNOS: a Dafny model of its hard core

MNOS is an x86-64 emulator with a small teaching operating system. This project models the parts of it
whose correctness is not visible from any single function, and proves what those parts promise:

- **Virtual memory.** Page tables are 4-level tables in flat physical memory. They are proved to be a page
  map: every walk shows the latest mapping. The TLB in front of them is proved invisible, and the shootdown
  protocol is proved to leave no stale entry without a request that will drop it. The layout of entries and
  fault codes follows sections 4.5, 4.7 and 4.10 of the Intel SDM, volume 3A.
- **Copy-on-write.** Forks that share pages are proved indistinguishable from forks that copy them. The proof is
  over processes whose page tables lie in one memory, from new address spaces on, through every walk.
- **x86-TSO store buffers.** Loads see the replay of the core's buffer, memory is the replay of one list of
  commits that respects each core's program order, and one core alone is sequentially consistent.
- **Storage.** The write-back LRU buffer cache is proved to be the bare device. SimpleFS, running on that
  cache, is proved to be a tree of named byte strings, errors and running out of space included.
- **LRU caches and the page allocator.** What hits is decided by how many other lines of the set were used
  since; allocation is complete and takes the lowest run.
- **SMP scheduler and initial user stack.** No thread is ever in two places, waiting is bounded, rebalancing
  ends and balances; the stack decodes back to the arguments and the environment.

Each component has a specification (datatypes, functions, lemmas) and, where the original changes objects in
place, a class whose methods are proved equal to that specification. C++ exceptions are `Result` values with
the kind of the exception. Integers are unbounded; wrap-around and 64-bit limits are written out where the
code depends on them. Ticks, sequence numbers and generations are taken not to wrap. `dafny verify
dfyconfig.toml` checks the whole project.

## Where the code does not do what it promises

Three properties are false of the code as it is. Each has a lemma with the exact condition, which a caller can
check before the call, and an input that shows the failure.

- `share_pages` checks for a mapping that already exists only when the parent's page is writable. Sharing a
  read-only page over a page that the child tracks succeeds, and the child's next write fault gives it a
  writable page with another frame's contents. The condition is `CowTheorems.MissedDuplicate`
  (`CowTheorems.ShareOneKeepsInvIff`); a fork from an unshared state leads to the failing state
  (`CowTheorems.MissedExampleIsReachable`, `CowTheorems.MissedDuplicateShowsThrough`).
- `AddressSpace::map_page` keeps its old table cursor when the builder throws, although tables that the
  builder has already linked stay linked. The tables stay in order exactly unless the arena holds some of the
  missing tables and not all (`AddressSpaceTables.MapPageForgetsIff`). Otherwise the next call takes a linked
  table again, and an address that was never mapped reads a data page as a table
  (`AddressSpaceTables.ForgottenTableIsHandedOutAgain`). Runs of copy-on-write therefore do not map or fork into
  such an address space again; they may still read, write and fault in it.
- `make_layout` accepts block sizes for which inode records straddle blocks, so that `read_inode` and
  `write_inode` reach past the block for the inode after those of the first block
  (`SimpleFsLayout.MadeLayoutStraddlesIff`, `SimpleFsLayout.StraddlingExample`).

## Model

| member | source | states |
|---|---|---|
| `MemoryBus.PhysicalMemory.Read` | src/cpu/memory/physical_memory.cpp:123-135 | in range, the loop returns the little-endian value of exactly those bytes; otherwise it throws |
| `MemoryBus.PhysicalMemory.Write` | src/cpu/memory/physical_memory.cpp:137-149 | in range, the loop stores the little-endian encoding and leaves all other bytes; otherwise it throws and changes nothing |
| `MemoryBus.AccessIsLittleEndian` | src/cpu/memory/physical_memory.cpp:123-149 | a range is accepted exactly when its end is in memory; the lowest byte of a value is at the lowest address, in loads and in stores |
| `MemoryBus.LoadAfterStore` | src/cpu/memory/physical_memory.cpp:123-149 | a value that fits its width reads back as written |
| `LittleEndian.EncodeDecode` | src/cpu/memory/physical_memory.cpp:123-149 | bytes that are read and written back are the same bytes |
| `Paging.DecodeJoin` | src/cpu/memory/paging.cpp:354-418 | the flag and address accessors recover every field of an entry built from those fields |
| `Paging.WithPermissionsDecodes` | src/cpu/memory/paging.cpp:430-451 | changing the permissions of an entry changes its three permission bits and no other field |
| `Paging.DenialIsTheRules` | src/cpu/memory/page_table_walker.cpp:61-92 | an access is allowed exactly when (not from ring 3, or a user page), (not a write, or a writable page, or outside ring 3 with write protection off) and (not a fetch, or an executable page); otherwise the reason is that of the first of these that fails |
| `Paging.FaultFaults` | src/cpu/memory/paging.cpp:237-264 | the error code of a fault has exactly five bits: present unless the page is not, write, user, reserved, fetch |
| `Paging.CanonicalIsSignExtended` | src/cpu/memory/paging.cpp:214-219 | an address is canonical exactly when it repeats bit 47 in its upper bits |
| `PageTableWalker.TranslateAddress` | src/cpu/memory/page_table_walker.cpp:190-249 | the level loop, with its accessed and dirty marking, is the recursive marking walk |
| `PageTableWalker.TranslateFollowsWalk` | src/cpu/memory/page_table_walker.cpp:190-249 | for every memory, address and access: the result is the one predicted from a pure walk, memory changes only in accessed and dirty bits, and no later walk sees a difference |
| `PageTableWalker.MarksKeepWalks` | src/cpu/memory/page_table_walker.cpp:151-177 | accessed and dirty bits never change what any walk finds |
| `WalkReference.WalkIsFourLevels` | src/cpu/memory/page_table_walker.cpp:190-249 | for every memory and address, the walk reads at most four entries at the offsets of the manual, stops at the first that is not present, has reserved bits or is a large page, and gives the permissions that all of them grant |
| `WalkReference.AccessMarksExactly` | src/cpu/memory/page_table_walker.cpp:151-249 | for every memory and access: exactly the accessed bits of the entries gone through (the leaf only if the access is allowed) and, for an allowed write, the dirty bit of the leaf are set, also the first time; no other bit changes |
| `PageTableBuilder.PageTableBuilder.Clear` | src/cpu/memory/page_table_builder.cpp:185-191 | the loop over 512 entries zeroes exactly the table page |
| `PageTableBuilder.PageTableBuilder.EnsureChildTable` | src/cpu/memory/page_table_builder.cpp:193-215 | returns the linked child, or allocates, clears and links one, or throws, as the specification step does |
| `PageTableBuilder.PageTableBuilder.WriteLeafEntry` | src/cpu/memory/page_table_builder.cpp:225-239 | writes the leaf unless a table hangs from the entry |
| `PageTableBuilder.PageTableBuilder.Map4K` | src/cpu/memory/page_table_builder.cpp:87-112 | three tables and a leaf, in the order of the specification |
| `PageTableBuilder.PageTableBuilder.Map2M` | src/cpu/memory/page_table_builder.cpp:114-135 | two tables and a large leaf |
| `PageTableBuilder.PageTableBuilder.Map1G` | src/cpu/memory/page_table_builder.cpp:137-154 | one table and a large leaf |
| `PageMap.EnsureChildStep` | src/cpu/memory/page_table_builder.cpp:166-215 | adding a table keeps the tables a tree and changes no translation; a failure changes nothing |
| `PageMap.LeafStep` | src/cpu/memory/page_table_builder.cpp:225-239 | writing a leaf changes the translation of its page and of no other address |
| `PageMap.MapStep` | src/cpu/memory/page_table_builder.cpp:87-154 | a map call that succeeds maps its page and changes no other translation; one that throws changes no translation |
| `AddressSpace.AddressSpace.MapPage` | src/os/mm/address_space.cpp:117-132 | the builder's result, with the cursor taken over only on success |
| `AddressSpace.AddressSpace.SetPagePermissions` | src/os/mm/address_space.cpp:202-219 | the walk, the size check and the rewrite of the leaf, with every error |
| `AddressSpace.PermissionStep` | src/os/mm/address_space.cpp:202-219 | changing permissions remaps the same frame with the new permissions and touches no other page; a failure changes no translation |
| `PageMapRuns.TablesAreAPageMap` | src/cpu/memory/page_table_builder.cpp:87-239 | after any run of map, permission and access calls, successful or not, from a cleared root: an access to an address that is not canonical is refused; any other is translated, to the frame, size and permissions of the latest mapping that covers it, exactly when the rules of protection allow it; otherwise it faults with the reason of the first rule broken, or not-present, and with that error code |
| `AddressSpaceTables.CursorMovesIff` | src/cpu/memory/page_table_builder.cpp:166-215 | the builder takes a table page exactly when the path lacks a table and the arena has room |
| `AddressSpaceTables.BuilderTakes` | src/cpu/memory/page_table_builder.cpp:87-215 | for every page size, mapping takes the missing tables as far as the arena goes, and succeeds exactly when all of them fit and no page or table is in the way, with the error otherwise |
| `AddressSpaceTables.MapSucceedsIff` | src/cpu/memory/page_table_builder.cpp:87-239 | map_4k, map_2m and map_1g succeed exactly for aligned addresses whose missing tables fit and where nothing is in the way; which error is thrown otherwise |
| `AddressSpaceTables.MapPageForgetsIff` | src/os/mm/address_space.cpp:117-132 | for every aligned call the tables are in order afterwards exactly unless the pages left are some of the missing tables and not all; and the call succeeds exactly when they all fit and no large page is in the way |
| `AddressSpaceTables.ForgottenTableIsHandedOutAgain` | src/os/mm/address_space.cpp:117-132 | three calls on a new address space: the second fails and leaves two linked tables behind the cursor, the third takes the first of them again, and an address that was never mapped turns from not-present to mapped |
| `TableArenas.MapStays` | src/cpu/memory/page_table_builder.cpp:87-239 | a map call, successful or not, writes only between the start of its arena and its new cursor, which stays in the arena |
| `TableArenas.TranslateStays` | src/cpu/memory/page_table_walker.cpp:190-249 | an access writes only inside the arena of its tables |
| `TableArenas.SetPermissionsStays` | src/os/mm/address_space.cpp:202-219 | so does a permission change |
| `TableArenas.TreeStays` | src/cpu/memory/page_table_builder.cpp:87-239 | writes outside its arena leave a tree of tables in order |
| `TableArenas.ArenaWrite` | src/os/mm/address_space.cpp:46-74 | with any number of address spaces in arenas apart, a change inside one arena keeps the tables, translations and marks of all others |
| `Tlb.TranslationLookasideBuffer.LookupAddress` | src/cpu/memory/tlb.cpp:74-107 | the slot's translation when generation, context and page match |
| `Tlb.TranslationLookasideBuffer.InsertTranslation` | src/cpu/memory/tlb.cpp:114-128 | replaces the slot of the page, counting a slot that was empty |
| `Tlb.TranslationLookasideBuffer.InvalidateEntries` | src/cpu/memory/tlb.cpp:20-65 | clear and the invalidations by page, page and context, and context: the loop drops exactly the entries that match |
| `Tlb.LookupIffHeld` | src/cpu/memory/tlb.cpp:20-137 | over any insertions and invalidations from an empty TLB, a lookup finds a translation exactly while it is held: inserted for this generation and context, covering the address and sharing its slot, neither displaced by another in the slot nor invalidated since |
| `Mmu.MemoryManagementUnit.TranslateEnabledAddress` | src/cpu/memory/mmu.cpp:210-282 | lookup, permission check and dirty marking on a hit, walk and insert on a miss, as the specification step |
| `Mmu.MemoryManagementUnit.Read` | src/cpu/memory/mmu.cpp:119-145 | one translated read inside a page, byte by byte across pages, as the specification |
| `Mmu.MemoryManagementUnit.Write` | src/cpu/memory/mmu.cpp:147-182 | one translated write inside a page; across pages every byte is translated before any is written, as the specification |
| `Mmu.Cr3LoadIff` | src/cpu/memory/paging.cpp:502-538 | loading CR3 succeeds exactly for an aligned root and a valid context (other than 0 only while contexts are on), with the error otherwise; a new generation starts exactly on a flush |
| `Mmu.ControlFlushes` | src/cpu/memory/paging.cpp:480-594 | every change of mode starts a new generation, unless contexts are switched to what they already are; switching them off goes back to context 0; nothing else changes |
| `Mmu.AccessFills` | src/cpu/memory/mmu.cpp:210-282 | a failed access leaves the TLB alone; a hit sets at most the dirty flag of its entry; a miss caches the translation in its slot and nothing else |
| `TlbInvisibility.HitIsFresh` | src/cpu/memory/mmu.cpp:246-282 | a hit whose entry is in the tables gives the address or fault, and the memory, of a fresh walk |
| `TlbInvisibility.TlbIsInvisible` | src/cpu/memory/mmu.cpp:210-282 | for every coherent TLB and every access: same physical address, same fault reason and error code, same memory as a fresh walk, and the TLB stays coherent |
| `MmuData.ReadIsFlat` | src/cpu/memory/mmu.cpp:119-145 | a read, also across pages, gives the value or fault, and leaves the memory, of a machine without a TLB |
| `MmuData.WriteIsFlat` | src/cpu/memory/mmu.cpp:147-182 | so does a write |
| `MmuData.ReadIsByteByByte` | src/cpu/memory/mmu.cpp:119-145 | every read, inside a page or across pages, is the read of its bytes one by one, each through its own translation |
| `MmuData.WriteIsByteByByte` | src/cpu/memory/mmu.cpp:147-182 | every write that succeeds has translated each of its bytes and then put each at its own address; inside a page it fails as a whole |
| `MmuData.FaultingWriteWritesNothing` | src/cpu/memory/mmu.cpp:164-182 | a write that page-faults on any of its bytes has written none: only accessed and dirty bits may change |
| `MmuData.PutBytesEffect` | src/cpu/memory/mmu.cpp:176-181 | each byte of the value reaches its own address and nothing else changes |
| `TlbRuns.RunsAreTheSame` | src/cpu/memory/mmu.cpp:210-282 | over every run in which edits are followed by an invalidation that reaches them, a machine with the TLB and one without observe the same and end with the same memory |
| `TlbRuns.EmptyTlbIsCoherent` | src/cpu/memory/tlb.cpp:20-27 | an empty TLB is coherent, so that runs may start from power-on |
| `TlbRuns.LeafEditIsReached` | src/cpu/memory/tlb.cpp:29-53 | invalidating any one address of an edited page reaches every stale entry, for every page size |
| `TlbRuns.AbsentPagesNeedNoInvalidation` | src/cpu/memory/tlb.cpp:109-128 | changes that keep every present mapping keep the TLB coherent without invalidation |
| `TlbRuns.NewGenerationIsCoherent` | src/cpu/memory/paging.cpp:502-538 | bumping the generation makes any TLB coherent for the new root |
| `ArenaEdits.MappingAbsentPageIsSafe` | src/cpu/memory/page_table_builder.cpp:87-154 | a map call on a page that is not mapped in its size needs no invalidation, with any number of contexts in the TLB |
| `ArenaEdits.RemappingThenInvalidatingIsSafe` | src/cpu/memory/page_table_builder.cpp:225-239 | remapping a mapped page and invalidating any one of its addresses keeps a TLB with any number of contexts coherent |
| `TlbShootdown.TlbShootdownController.PostRequest` | src/cpu/memory/tlb_shootdown.cpp:112-131 | a new request with the next sequence at the end of the queue |
| `TlbShootdown.TlbShootdownController.TakeNextFor` | src/cpu/memory/tlb_shootdown.cpp:145-159 | takes the first request for the core and keeps the order of the others |
| `TlbShootdown.TlbShootdownController.AcknowledgeSequence` | src/cpu/memory/tlb_shootdown.cpp:161-170 | adds the sequence to the acknowledged set once |
| `TlbShootdown.TlbShootdownController.Apply` | src/cpu/memory/tlb_shootdown.cpp:177-199 | invalidates what the request names and acknowledges it |
| `ShootdownProtocol.PostsExactly` | src/cpu/memory/tlb_shootdown.cpp:112-131 | an edit posts one request for each other core, none for its own, with the page and context of the edit and increasing sequences, and nothing else |
| `ShootdownProtocol.StepIsSafe` | src/os/kernel/kernel.cpp:1289-1304 | every access, edit with local invalidation and posts, and take-and-apply step keeps: each stale entry of a core is covered by a request still pending for it |
| `ArenaEdits.RemapIsPageEdit` | src/cpu/memory/page_table_builder.cpp:87-239 | with a tree of tables for each context in one memory, mapping a page that is mapped is an enabled page edit of the protocol and keeps all trees in order |
| `ArenaEdits.MapIsAbsentEdit` | src/cpu/memory/page_table_builder.cpp:87-239 | mapping a page that is not mapped, successful or not, is an enabled edit without invalidation |
| `ArenaEdits.SetPermissionsIsPageEdit` | src/os/mm/address_space.cpp:202-219 | changing the permissions of a mapped page is an enabled page edit |
| `ArenaEdits.AccessKeepsArenas` | src/cpu/memory/page_table_walker.cpp:190-249 | an access keeps all trees in order and what other contexts translate |
| `ShootdownProtocol.RunIsSafe` | src/cpu/memory/tlb_shootdown.cpp:112-199 | the same over every interleaving |
| `ShootdownProtocol.StartIsSafe` | src/cpu/memory/tlb.cpp:20-27 | empty TLBs are a safe start |
| `ShootdownProtocol.QuietCoreIsCoherent` | src/cpu/memory/tlb_shootdown.cpp:133-199 | after any interleaving, a core with no pending request gets from every access what a fresh walk gives |
| `ShootdownProtocol.PostIsAccounted` | src/cpu/memory/tlb_shootdown.cpp:112-131 | posting keeps sequences increasing and separate from the acknowledged ones |
| `ShootdownProtocol.ApplyIsAccounted` | src/cpu/memory/tlb_shootdown.cpp:145-199 | a request taken and applied moves from the queue to the acknowledged set, and a core's requests go in issue order |
| `CowPageTables.MapPageIsPut` | src/os/mm/address_space.cpp:117-132 | the page map that walks compute gets exactly one page from a successful map call, and keeps all from a failed one |
| `CowPageTables.SetPermissionsIsPut` | src/os/mm/address_space.cpp:202-219 | set_page_permissions succeeds exactly on a mapped 4 KiB page, and changes the permissions of that page in the page map and nothing else |
| `CowPageTables.AccessShows` | src/cpu/memory/page_table_walker.cpp:190-249 | an access is translated exactly when the rules of protection allow it for what the page map has for its page, and then reaches the byte at its offset in the frame, for pages of all sizes; otherwise it faults with the reason of the first rule broken, or not-present, and with that error code |
| `CopyOnWriteManagers.CopyPhysicalPage` | src/os/proc/copy_on_write.cpp:338-348 | the word loop makes the target frame a copy of the source frame and changes nothing else |
| `CopyOnWriteManagers.CopyOnWriteManager.FindMapping` | src/os/proc/copy_on_write.cpp:243-269 | the first mapping of the page, or the end of the list |
| `CopyOnWriteManagers.CopyOnWriteManager.AddFrameRef` | src/os/proc/copy_on_write.cpp:297-306 | one more reference to the frame, with a new record if there was none |
| `CopyOnWriteManagers.CopyOnWriteManager.ReleaseFrameRef` | src/os/proc/copy_on_write.cpp:308-322 | one reference less, the record erased at zero |
| `CopyOnWriteManagers.CopyOnWriteManager.RemoveMapping` | src/os/proc/copy_on_write.cpp:324-336 | erases the first mapping of the page |
| `CopyOnWriteManagers.CopyOnWriteManager.SharePages` | src/os/proc/copy_on_write.cpp:122-176 | the loop over pages on the two address spaces' tables: translate, check, map into the child, write-protect the parent, track, until one throws, with the count of shared pages |
| `CowPageTables.SharedAreCounted` | src/os/proc/copy_on_write.cpp:122-176 | the count returned is how many more pages of the child are tracked; whatever was tracked stays |
| `CopyOnWriteManagers.CopyOnWriteManager.ResolveWriteFault` | src/os/proc/copy_on_write.cpp:178-241 | a write fault on the tables has the result, the lists and the memory of the specification step, whose results `CowTheorems.ResolveOutcome` gives by what is mapped |
| `CowTheorems.TrackAgrees` | src/os/proc/copy_on_write.cpp:297-306 | tracking a mapping keeps each frame's reference count equal to its number of tracked mappings |
| `CowTheorems.UntrackAgrees` | src/os/proc/copy_on_write.cpp:308-336 | so does untracking one |
| `CowTheorems.UnsharedIsFine` | include/mnos/os/proc/copy_on_write.hpp:91-92 | before anything is shared the invariant holds |
| `CowTheorems.ShareOneKeepsInvIff` | src/os/proc/copy_on_write.cpp:122-176 | sharing a page keeps the invariant (counts right, a writable frame mapped once, tracked pages read-only) exactly unless the page is aligned, mapped with 4 KiB and read-only in the parent, tracked for the child, and fits the child's tables |
| `CowTheorems.MissedExampleIsReachable` | src/os/proc/copy_on_write.cpp:122-176 | a fork from a state with nothing shared leads to a state in which that case is met |
| `CowTheorems.MissedDuplicateShowsThrough` | src/os/proc/copy_on_write.cpp:148-156 | in that state the guard that is left out lets a process write, into another frame's contents, a page that was shared with it read-only |
| `CowTheorems.ShareOneCopies` | src/os/proc/copy_on_write.cpp:122-176 | a successful share is an eager copy of contents and permissions, as every process sees it; a failed one is nothing |
| `CowTheorems.ShareOneOutcome` | src/os/proc/copy_on_write.cpp:122-176 | which result a share has, by what is mapped and tracked: success exactly for an aligned 4 KiB page of the parent that fits the child, not over a large page and not writable over a page that the child tracks; counted exactly when writable apart from copy-on-write |
| `CowTheorems.LastReferenceIsSole` | src/os/proc/copy_on_write.cpp:198-211 | a frame with one reference left is mapped by no other page |
| `CowTheorems.ResolveOutcome` | src/os/proc/copy_on_write.cpp:178-241 | which result a fault has, by what is mapped: restored exactly when no other page has the frame, whether or not a frame is granted; copied exactly when another has it and a frame is granted; out of memory exactly when another has it and none is; the rest only for faults that are not writes to a tracked page |
| `CowTheorems.ResolveIsInvisible` | src/os/proc/copy_on_write.cpp:178-241 | resolving a fault changes nothing that any process sees and keeps the invariant |
| `CowTheorems.UserWriteIsPrivate` | src/os/proc/copy_on_write.cpp:122-241 | a store that the page map allows changes one page of one process |
| `CowTheorems.InstallKeeps` | src/os/mm/address_space.cpp:117-132 | mapping an unused frame adds one page with its contents and nobody else sees a change |
| `CowRuns.ForkPageSimulates` | src/os/proc/copy_on_write.cpp:127-172 | one page of share_pages on tables in one memory does to the page maps of all processes what the specification of sharing says, with the same result and the same error, fits meaning that the missing tables fit the arena and nothing blocks the page; and touches no data |
| `CowRuns.ForkIsShareAll` | src/os/proc/copy_on_write.cpp:122-176 | a fork of the run is share_pages on the tables of two processes, up to the page that throws and with its error, and leaves the others' records alone |
| `CowRuns.ForkAgrees` | src/os/proc/copy_on_write.cpp:122-176 | a fork shows every process what eager copies of the pages up to the first that throws would show |
| `CowRuns.FaultAgrees` | src/os/proc/copy_on_write.cpp:178-241 | resolving a fault on the tables shows no process any change |
| `CowRuns.StoreAgrees` | src/os/proc/copy_on_write.cpp:178-241 | a user store through the tables, with its fault, resolution and retry, has the effect and the outcome of the eager machine, whose stores obey the rules of protection; it has no outcome, and nobody sees a change, exactly when the address is not canonical or another page shares the frame and no frame is granted |
| `CowRuns.InstallAgrees` | src/os/mm/address_space.cpp:117-132 | mapping a free frame through the tables adds that page, or nothing if it throws |
| `CowRuns.FreshSystemShowsNothing` | src/os/mm/address_space.cpp:46-74 | any number of new address spaces in arenas apart is a start of a run in which nobody sees a page |
| `CowRuns.SoundShowsEager` | src/os/proc/copy_on_write.cpp:122-241 | so is any system whose tables are in order: there is an eager machine that looks like it |
| `CowRuns.LegalIsReady` | src/os/proc/copy_on_write.cpp:122-241 | in such a system the conditions that a caller can check before a step are all that the step needs |
| `CowRuns.CowRefinesEagerCopy` | src/os/proc/copy_on_write.cpp:122-241 | over every run of mappings, forks, faults and stores of processes with their own tables in one memory, what walks show each process, and the outcome of each store, are those of the machine whose forks copy every page; tables stay in their arenas and data outside |
| `Tso.X86TsoMemoryModel.Store` | src/cpu/memory/memory_model.cpp:60-70 | appends to the core's buffer with the next sequence |
| `Tso.X86TsoMemoryModel.ForwardedByte` | src/cpu/memory/memory_model.cpp:193-209 | the byte of the youngest store of the core that covers the address |
| `Tso.X86TsoMemoryModel.Load` | src/cpu/memory/memory_model.cpp:72-96 | memory with every forwarded byte put in its place |
| `Tso.X86TsoMemoryModel.DrainCore` | src/cpu/memory/memory_model.cpp:123-134 | commits the core's oldest store |
| `Tso.X86TsoMemoryModel.DrainOne` | src/cpu/memory/memory_model.cpp:98-121 | commits the oldest of the cores' oldest stores |
| `Tso.X86TsoMemoryModel.DrainAll` | src/cpu/memory/memory_model.cpp:136-141 | drains until nothing is pending, and terminates |
| `Tso.X86TsoMemoryModel.Fence` | src/cpu/memory/memory_model.cpp:143-148 | drains the core's buffer |
| `Tso.X86TsoMemoryModel.CompareExchangeAt` | src/cpu/memory/memory_model.cpp:150-167 | fences, compares and exchanges memory in one step, as the specification step, whose meaning `TsoTheorems.CompareExchangeMeans` gives |
| `Tso.X86TsoMemoryModel.FetchAddAt` | src/cpu/memory/memory_model.cpp:169-182 | fences, reads and adds in one step; the reported new value is not cut to the width |
| `TsoTheorems.ReplayIsView` | src/cpu/memory/memory_model.cpp:193-226 | byte-wise forwarding over any overlap of sizes is what committing the buffer in order would write |
| `TsoTheorems.LoadSeesReplayedBuffer` | src/cpu/memory/memory_model.cpp:72-96 | a load equals a read of memory after replaying the core's buffer |
| `TsoTheorems.OwnDrainIsInvisible` | src/cpu/memory/memory_model.cpp:123-134 | committing a core's own oldest store changes no value it can load |
| `TsoTheorems.FenceReplays` | src/cpu/memory/memory_model.cpp:143-148 | a fence succeeds exactly when all stores of the core are in range, and then memory is their replay, the core's buffer is empty and the others' are as before |
| `TsoTheorems.CompareExchangeMeans` | src/cpu/memory/memory_model.cpp:150-167 | after the fence the value read is that of memory with the core's stores replayed; the desired value is stored exactly when it equals the expected one, and else memory is left as it is |
| `TsoTheorems.FetchAddMeans` | src/cpu/memory/memory_model.cpp:169-182 | after the fence the sum modulo 2^64, cut to the width, is stored, and the value before is reported |
| `TsoTheorems.DrainOneTakesGloballyOldest` | src/cpu/memory/memory_model.cpp:98-121 | drain_one commits the store issued before all other pending ones, and does nothing only when none is pending |
| `TsoTheorems.IssueOrderExists` | src/cpu/memory/memory_model.cpp:98-141 | the pending stores of all cores have one order of issue that contains each core's buffer |
| `TsoTheorems.DrainAllFollows` | src/cpu/memory/memory_model.cpp:136-141 | drain_all commits, in a given issue order, the stores before the first one out of range and leaves the rest pending |
| `TsoTheorems.DrainAllReplaysIssueOrder` | src/cpu/memory/memory_model.cpp:136-141 | drain_all succeeds exactly when all pending stores are in range, and then memory is their replay in issue order; otherwise it is the replay of those before the first out of range, and the rest stay pending |
| `TsoTheorems.RunKeepsOrder` | src/cpu/memory/memory_model.cpp:60-182 | sequences increase in each buffer and are distinct across cores, over every run |
| `TsoTheorems.TotalStoreOrder` | src/cpu/memory/memory_model.cpp:60-226 | after any run memory is the replay of one list of commits of the machine's cores, and each core's commits and buffer are its writes in program order |
| `TsoTheorems.OneCoreIsSequentiallyConsistent` | src/cpu/memory/memory_model.cpp:60-182 | a run of one core reads the same values, and leaves the same logical memory, as on memory without store buffers, where each operation is written out as a plain read or write |
| `BlockDevice.GeometryAccepted` | src/os/block/block_device.cpp:16-32 | the division guard accepts exactly the geometries whose capacity fits in 64 bits |
| `Blocks.SplitPut` | src/os/block/block_device.cpp:110-117 | writing a block of flat storage replaces that block and no other |
| `BlockDevice.MemoryBlockDevice.ReadBlock` | src/os/block/block_device.cpp:101-108 | the block at the address, or the error of the size or range check |
| `BlockDevice.MemoryBlockDevice.WriteBlock` | src/os/block/block_device.cpp:110-117 | that block replaced, or an error and no change |
| `Lru.HoldsIffFewUsedSince` | src/cpu/memory/cache.cpp:216-312 | an n-slot LRU cache holds a key exactly when it was used and fewer than n distinct other keys were used since |
| `Lru.HitKeepsRanked` | src/cpu/memory/cache.cpp:304-312 | touching a slot keeps the slots the most recently used keys, ticks in order of use |
| `Lru.MissKeepsRanked` | src/cpu/memory/cache.cpp:260-302 | so does filling the first free slot or the one with the least tick |
| `Lru.VictimIsLeastRecent` | src/cpu/memory/cache.cpp:260-280 | the victim is in use exactly when the slots are full, and then holds the least recently used of their keys |
| `BufferCacheSpec.CachedIffRecent` | src/os/block/buffer_cache.cpp:218-311 | a block is cached exactly when it is among the capacity's worth of most recently used distinct blocks |
| `BufferCacheSpec.EvictedIsLeastRecent` | src/os/block/buffer_cache.cpp:218-311 | a block leaves the cache exactly when another takes its place in a full cache, and then it is the least recently used of those cached |
| `BufferCacheSpec.AccessWritesBackOnlyEvicted` | src/os/block/buffer_cache.cpp:218-341 | a read or write changes the device only at the block it evicts, which is left there as readers saw it |
| `BufferCacheSpec.ReadKeeps` | src/os/block/buffer_cache.cpp:150-157 | a read returns the logical block and changes no logical block, also when it evicts a dirty one |
| `BufferCacheSpec.WriteKeeps` | src/os/block/buffer_cache.cpp:159-169 | a write changes one logical block |
| `BufferCacheSpec.FlushAllReachesDevice` | src/os/block/buffer_cache.cpp:182-188 | after flush_all the device holds the logical contents |
| `BufferCacheSpec.ClearKeeps` | src/os/block/buffer_cache.cpp:190-200 | clear keeps the logical contents and starts recency afresh |
| `BufferCacheSpec.EmptyIsGood` | src/os/block/buffer_cache.cpp:93-99 | a new cache shows the device's blocks |
| `BufferCacheSpec.CacheRefinesDevice` | src/os/block/buffer_cache.cpp:150-341 | over every run of reads, writes, flushes and clears the cache answers as the bare device, errors included, and a final flush leaves the bare device's contents |
| `BufferCaches.CapacityAccepted` | src/os/block/buffer_cache.cpp:14-28 | the division guard accepts exactly the capacities above zero whose storage has a size in 64 bits |
| `BufferCaches.BufferCache.VictimIndex` | src/os/block/buffer_cache.cpp:270-289 | the first free entry, else the first with the least tick |
| `BufferCaches.BufferCache.ReadBlock` | src/os/block/buffer_cache.cpp:150-157 | the logical block, or the error of the size or range check; the logical contents stay, and the device changes at most at the block evicted |
| `BufferCaches.BufferCache.WriteBlock` | src/os/block/buffer_cache.cpp:159-169 | the logical contents with one block replaced, or an error and no change; the device changes at most at the block evicted |
| `BufferCaches.BufferCache.FlushBlock` | src/os/block/buffer_cache.cpp:171-180 | the device gets that logical block and keeps all others; nothing is seen to change |
| `BufferCaches.BufferCache.FlushAllEntries` | src/os/block/buffer_cache.cpp:182-188 | the device holds all logical blocks |
| `BufferCaches.BufferCache.Clear` | src/os/block/buffer_cache.cpp:190-200 | the same, with an empty index |
| `SetAssociativeCaches.LinesCoverAccess` | src/cpu/memory/cache.cpp:186-214 | an access inside the address space touches exactly the lines that cover its bytes, each once, in order |
| `SetAssociativeCaches.HitLaw` | src/cpu/memory/cache.cpp:216-312 | on the whole history: a line hits exactly when it was used and fewer than `ways` distinct other lines with the same remainder by the number of sets were used after its last use |
| `SetAssociativeCaches.WrittenMeans` | src/cpu/memory/cache.cpp:216-312 | a line counts as written exactly when some use wrote it (in write-back mode) and every later use of it was a hit |
| `SetAssociativeCaches.EvictsDirtyMeans` | src/cpu/memory/cache.cpp:260-302 | the line thrown out by a miss is the one the set would not hold with one way less, and it is written back exactly when it was written |
| `SetAssociativeCaches.LookupIsHit` | src/cpu/memory/cache.cpp:216-240 | the tag search of a set finds the line exactly when LRU predicts a hit |
| `SetAssociativeCaches.AccessKeeps` | src/cpu/memory/cache.cpp:260-312 | a hit or a fill keeps every set exact |
| `SetAssociativeCaches.FlagsKept` | src/cpu/memory/cache.cpp:282-312 | a hit or a fill keeps every dirty flag equal to: written since the last fill of the line |
| `SetAssociativeCaches.VictimFlag` | src/cpu/memory/cache.cpp:282-292 | on a miss the victim is dirty exactly when the line that recency predicts was written since its fill |
| `SetAssociativeCaches.MoreWaysNeverHurt` | src/cpu/memory/cache.cpp:186-312 | over any accesses, more ways turn no hit into a miss and never lower the hit count |
| `SetAssociativeCaches.SetAssociativeCache.AccessLine` | src/cpu/memory/cache.cpp:216-240 | a hit exactly when the line was used since the last clear with fewer than `ways` distinct other lines of its set used since; a dirty eviction exactly when the line that has to go was written since its fill |
| `SetAssociativeCaches.SetAssociativeCache.Access` | src/cpu/memory/cache.cpp:186-214 | the hits, misses and dirty evictions of all lines of the access, in order |
| `SetAssociativeCaches.SetAssociativeCache.VictimIndex` | src/cpu/memory/cache.cpp:260-280 | a free line of the set, else one with the least tick |
| `SetAssociativeCaches.SetAssociativeCache.Clear` | src/cpu/memory/cache.cpp:173-184 | forgets all uses |
| `SimpleFsLayout.CeilDivIsLeast` | src/os/fs/simple_fs.cpp:82-93 | the quotient is the least number of pieces that cover the value |
| `SimpleFsLayout.MadeLayoutIsSound` | src/os/fs/simple_fs.cpp:205-302 | every layout made has adjacent regions that fill the device, the least number of blocks for tables and for the bitmap, no 64-bit overflow, and passes validation |
| `SimpleFsLayout.MakeLayoutIff` | src/os/fs/simple_fs.cpp:205-302 | a layout is made exactly when the block size is in range, the least numbers of table and bitmap blocks fit 32 bits, and one data block is left; it is then that layout, field by field; which error is thrown otherwise |
| `SimpleFsLayout.SuperblockRoundTrip` | src/os/fs/simple_fs.cpp:304-348 | the superblock of a made layout reads back as that layout |
| `SimpleFsFormat.SuperblockBytes` | src/os/fs/simple_fs.cpp:304-321 | every field of the superblock at its offset and width on the disk |
| `SimpleFsFormat.SuperblockAcceptedIff` | src/os/fs/simple_fs.cpp:274-348 | exactly which superblocks a mount accepts, in terms of the bytes on the disk |
| `SimpleFsLayout.NoRecordStraddlesIff` | src/os/fs/simple_fs.cpp:693-706 | no inode record straddles a block exactly when records divide the block or all lie in the first block |
| `SimpleFsLayout.MadeLayoutStraddlesIff` | src/os/fs/simple_fs.cpp:234-302 | for every layout that make_layout accepts, all inodes lie whole in a block exactly when records fit, and otherwise the first that does not is the one after those of the first block |
| `SimpleFsLayout.StraddlingExample` | src/os/fs/simple_fs.cpp:234-302 | blocks of 160 bytes are accepted, and inode 3 then straddles two of them |
| `SimpleFsLayout.RecordsApart` | src/os/fs/simple_fs.cpp:693-706 | records of different inodes share no byte |
| `SimpleFsCodec.InodeRoundTrip` | src/os/fs/simple_fs.cpp:693-770 | an inode record reads back as written |
| `SimpleFsCodec.EntryRoundTrip` | src/os/fs/simple_fs.cpp:371-423 | a directory entry reads back as written |
| `SimpleFsFormat.InodeBytes` | src/os/fs/simple_fs.cpp:740-770 | every field of an inode record at its offset and width |
| `SimpleFsFormat.InodeAcceptedIff` | src/os/fs/simple_fs.cpp:693-738 | exactly which inode records are accepted, and as which inode |
| `SimpleFsFormat.EntryBytes` | src/os/fs/simple_fs.cpp:371-391 | every field of a directory entry at its offset and width, the name padded with zeros |
| `SimpleFsFormat.EntryAcceptedIff` | src/os/fs/simple_fs.cpp:393-423 | exactly which directory entries are accepted, and as which entry |
| `SimpleFsCodec.SetBitmapBitOnly` | src/os/fs/simple_fs.cpp:355-369 | setting a bitmap bit sets that bit and no other |
| `SimpleFsFormat.BitmapBitIs` | src/os/fs/simple_fs.cpp:355-369 | bit i of the bitmap is bit i modulo 8 of byte i / 8, from the least significant on |
| `SimpleFs.WriteChunksEffect` | src/os/fs/simple_fs.cpp:946-981 | the write loop never runs out of blocks, takes exactly the free blocks it was promised, leaves all other blocks, and puts the source in place across any number of blocks |
| `SimpleFsFiles.ReadIsSlice` | src/os/fs/simple_fs.cpp:874-919 | a read returns exactly the slice of the contents, cut off at the end of the file |
| `SimpleFsFiles.AcceptedMeansCanWrite` | src/os/fs/simple_fs.cpp:926-944 | the checks before a write promise everything the loop needs |
| `SimpleFsFiles.WriteBytesEffect` | src/os/fs/simple_fs.cpp:921-986 | an accepted write overwrites the bytes of its inode and takes only free blocks |
| `SimpleFsState.InstallKeepsInv` | src/os/fs/simple_fs.cpp:676-686 | storing the grown inode keeps block ownership: a bit is set exactly when one slot of one inode owns the block, slots are the blocks of the size, free and owned blocks add up |
| `SimpleFsState.InstallLeavesOthers` | src/os/fs/simple_fs.cpp:921-986 | no other inode changes, neither record nor bytes |
| `SimpleFsTree.CreateKeepsTree` | src/os/fs/simple_fs.cpp:624-664 | creating adds one entry and one node, and the names stay distinct, each node named exactly once by an entry of its kind, ranks growing from parent to child |
| `SimpleFsTree.WriteKeepsTree` | src/os/fs/simple_fs.cpp:676-686 | writing a file keeps the namespace |
| `SimpleFsRefinement.DirectoryRoundTrip` | src/os/fs/simple_fs.cpp:594-622 | a directory reads back as the entries that were appended |
| `SimpleFsRefinement.LookupRefines` | src/os/fs/simple_fs.cpp:578-622 | lookup answers as the tree does, errors included |
| `SimpleFsRefinement.ReadRefines` | src/os/fs/simple_fs.cpp:666-674 | read_file answers as the tree does |
| `SimpleFsRefinement.RefusalMatches` | src/os/fs/simple_fs.cpp:823-872 | the up-front block count sees exactly the blocks that the tree leaves free |
| `SimpleFsRefinement.WriteRefines` | src/os/fs/simple_fs.cpp:676-686 | write_file has the result and the effect of the tree, out of space included, and touches no other node |
| `SimpleFsRefinement.AppendSucceeds` | src/os/fs/simple_fs.cpp:988-994 | once the checks of a creation have passed, the entry fits: creation cannot fail half way |
| `SimpleFsRefinement.CreateRefines` | src/os/fs/simple_fs.cpp:624-664 | create_file and create_directory do what the tree does: one entry and one node, or nothing |
| `SimpleFsRuns.FormatRefines` | src/os/fs/simple_fs.cpp:520-538 | a formatted file system is the tree with only a root |
| `SimpleFsRuns.StepKeepsTree` | src/os/fs/simple_fs.cpp:578-686 | every operation keeps the namespace a tree |
| `SimpleFsRuns.RunsRefineTree` | src/os/fs/simple_fs.cpp:520-994 | over every run of creations, writes, reads and lookups the results are the tree's, the file system represents the tree, and the namespace stays a tree |
| `SimpleFsPromises.NamesAreValid` | src/os/fs/simple_fs.cpp:1004-1011 | a name is valid exactly with 1 to 56 bytes, none of them a slash, and other than "." and ".." |
| `SimpleFsPromises.LookupFinds` | src/os/fs/simple_fs.cpp:578-592 | when the tree's lookup finds an entry, finds none, or fails and how |
| `SimpleFsPromises.ReadReturns` | src/os/fs/simple_fs.cpp:666-674 | which bytes the tree's read returns, and when it fails and how |
| `SimpleFsPromises.WriteSucceedsIff` | src/os/fs/simple_fs.cpp:676-686 | a write succeeds exactly on a file, without a gap, if the file then fits six blocks and the device has the blocks it lacks; which error otherwise; byte by byte what the file holds then, and that no other node changes |
| `SimpleFsPromises.CreateSucceedsIff` | src/os/fs/simple_fs.cpp:624-664 | a creation succeeds exactly for a valid name that is not taken in an existing directory with room for one more entry, if an inode is free; which error otherwise; the first free inode becomes an empty node and its entry comes last |
| `SimpleFsDisk.MadeLayoutIsOk` | src/os/fs/simple_fs.cpp:234-272 | a made layout is fit for use exactly when its records fit |
| `SimpleFsDisk.PutInode` | src/os/fs/simple_fs.cpp:740-770 | rewriting a record in its block changes that inode and nothing else on the disk |
| `SimpleFsDisk.PutBit` | src/os/fs/simple_fs.cpp:806-811 | setting a bit marks that data block and nothing else on the disk |
| `SimpleFsDisk.PutData` | src/os/fs/simple_fs.cpp:813-816 | writing a data block changes that block and nothing else on the disk |
| `SimpleFileSystems.SimpleFileSystem.ReadInode` | src/os/fs/simple_fs.cpp:693-738 | the inode that the record on the disk stands for, or the range error |
| `SimpleFileSystems.SimpleFileSystem.WriteInode` | src/os/fs/simple_fs.cpp:740-770 | that inode replaced on the disk |
| `SimpleFileSystems.SimpleFileSystem.AllocateInode` | src/os/fs/simple_fs.cpp:772-788 | the first free inode becomes an empty one, or an error and no change |
| `SimpleFileSystems.SimpleFileSystem.AllocateDataBlock` | src/os/fs/simple_fs.cpp:790-821 | the bitmap scan takes the first free block and zeroes it, and fails only when there is none |
| `SimpleFileSystems.SimpleFileSystem.FreeDataBlockCount` | src/os/fs/simple_fs.cpp:823-850 | the number of clear bits that stand for data blocks |
| `SimpleFileSystems.SimpleFileSystem.ReadInodeBytes` | src/os/fs/simple_fs.cpp:874-919 | the loop through the cache reads what the decoded file system holds |
| `SimpleFileSystems.SimpleFileSystem.WriteInodeBytes` | src/os/fs/simple_fs.cpp:921-986 | checks and loop through the cache have the result, the inode and the disk of the specification |
| `SimpleFileSystems.SimpleFileSystem.ReadFile` | src/os/fs/simple_fs.cpp:666-674 | read_file on the disk is the specification's |
| `SimpleFileSystems.SimpleFileSystem.WriteFile` | src/os/fs/simple_fs.cpp:676-686 | write_file on the disk is the specification's |
| `SimpleFileSystems.SimpleFileSystem.ReadDirectory` | src/os/fs/simple_fs.cpp:594-622 | read_directory on the disk is the specification's |
| `SimpleFileSystems.SimpleFileSystem.Lookup` | src/os/fs/simple_fs.cpp:578-592 | lookup on the disk is the specification's |
| `SimpleFileSystems.SimpleFileSystem.CreateNode` | src/os/fs/simple_fs.cpp:624-664 | create_file and create_directory on the disk are the specification's |
| `SimpleFileSystems.Format` | src/os/fs/simple_fs.cpp:520-538 | for every layout made, every block on the flushed device is the superblock, the root's record or zeros; and the disk is the empty file system if records fit |
| `SmpSchedulers.SmpScheduler.Contains` | src/os/sched/smp_scheduler.cpp:261-271 | whether some queue or current slot holds the thread |
| `SmpSchedulers.SmpScheduler.LeastLoadedQueue` | src/os/sched/smp_scheduler.cpp:470-481 | the first core with the least load |
| `SmpSchedulers.SmpScheduler.BusiestReadyQueue` | src/os/sched/smp_scheduler.cpp:483-494 | the first core with the most ready threads |
| `SmpSchedulers.SmpScheduler.EnqueueThread` | src/os/sched/smp_scheduler.cpp:348-360 | enqueue and wake, with every refusal |
| `SmpSchedulers.SmpScheduler.TakeNextRunnable` | src/os/sched/smp_scheduler.cpp:211-223 | pops the front until a ready thread, dropping the others |
| `SmpSchedulers.SmpScheduler.ScheduleNextOn` | src/os/sched/smp_scheduler.cpp:129-148 | the scheduling step of a core, as the specification step, which keeps every thread in its place (`SmpSchedulerProgress.ScheduleConserves`) |
| `SmpSchedulers.SmpScheduler.StopCurrentOn` | src/os/sched/smp_scheduler.cpp:150-172 | block_current and exit_current, and the thread that runs next, if one was stopped |
| `SmpSchedulers.SmpScheduler.MigrateReady` | src/os/sched/smp_scheduler.cpp:396-415 | migration with its refusals |
| `SmpSchedulers.SmpScheduler.TakeMigratableBack` | src/os/sched/smp_scheduler.cpp:188-200 | pops the back until a ready thread, dropping the others |
| `SmpSchedulers.SmpScheduler.StealOne` | src/os/sched/smp_scheduler.cpp:417-431 | theft from the back of a queue |
| `SmpSchedulers.SmpScheduler.RebalanceOnce` | src/os/sched/smp_scheduler.cpp:433-444 | the guard and the theft of one rebalancing |
| `SmpSchedulerTheorems.StepKeeps` | src/os/sched/smp_scheduler.cpp:348-444 | every call, and every stop of a thread from outside, keeps: each thread in at most one place, queued threads not RUNNING and current ones not READY, places bound to their core, RUNNING threads current |
| `SmpSchedulerTheorems.RunKeeps` | src/os/sched/smp_scheduler.cpp:122-444 | the same over every run |
| `SmpSchedulerTheorems.RunStaysUndisturbed` | src/os/sched/smp_scheduler.cpp:122-444 | without stops from outside, queued threads are READY and current ones RUNNING after every run |
| `SmpSchedulerProgress.NoThreadIsLost` | src/os/sched/smp_scheduler.cpp:122-444 | over every run that does not stop it, a thread that was enqueued has exactly one place and is ready or running |
| `SmpSchedulerProgress.ScheduleConserves` | src/os/sched/smp_scheduler.cpp:129-148 | scheduling keeps the number of places of every ready or running thread, and adds none |
| `SmpSchedulerProgress.StopConserves` | src/os/sched/smp_scheduler.cpp:150-172 | so does stopping, except for the thread that is stopped |
| `SmpSchedulerProgress.PreemptedWaitsLast` | src/os/sched/smp_scheduler.cpp:129-148 | a running thread becomes ready behind all others and the first ready one runs; with no other ready it runs again; other cores and threads stay |
| `SmpSchedulerProgress.IdleCoreTakesFirst` | src/os/sched/smp_scheduler.cpp:129-148 | a core without a running thread runs the first ready one, or stays idle |
| `SmpSchedulerProgress.StopThenIdle` | src/os/sched/smp_scheduler.cpp:150-172 | a stopped thread gets its state and loses its place, and the core goes on as an idle one |
| `SmpSchedulerProgress.EnqueueIff` | src/os/sched/smp_scheduler.cpp:348-360 | enqueueing succeeds exactly for a thread without a place, neither dead nor running, on a core that exists; which error otherwise |
| `SmpSchedulerProgress.EnqueuedWaitsLast` | src/os/sched/smp_scheduler.cpp:348-394 | an enqueued thread waits behind all others of the core asked for, or of the first core with the fewest waiting and running threads, as its only place |
| `SmpSchedulerProgress.MigrateIff` | src/os/sched/smp_scheduler.cpp:396-415 | migration of a queued thread succeeds exactly if it is ready and the core exists; it leaves its queue and waits behind all others of the other |
| `SmpSchedulerProgress.StealTakesLast` | src/os/sched/smp_scheduler.cpp:417-431 | theft takes the last ready thread, drops those behind it, and puts it behind all others of the target; none exactly when none is ready |
| `SmpSchedulerProgress.RebalanceSteals` | src/os/sched/smp_scheduler.cpp:433-494 | rebalancing steals from the first core with the most waiting threads for the first with the fewest threads, exactly when they differ by more than one |
| `SmpSchedulerProgress.MigrateConserves` | src/os/sched/smp_scheduler.cpp:396-415 | migration loses and doubles no thread |
| `SmpSchedulerProgress.StealConserves` | src/os/sched/smp_scheduler.cpp:417-431 | theft keeps every ready thread and adds none |
| `SmpSchedulerProgress.BoundedWaiting` | src/os/sched/smp_scheduler.cpp:129-172 | in any run that does not take it away, a thread at ready position i runs once its core has chosen i + 1 times |
| `SmpSchedulerProgress.TurnIsExact` | src/os/sched/smp_scheduler.cpp:129-148 | without stops from outside it runs after exactly i + 1 scheduling steps of its core |
| `SmpSchedulerProgress.RebalanceLowers` | src/os/sched/smp_scheduler.cpp:433-444 | a rebalancing that moves a thread lowers the sum of squared loads |
| `SmpSchedulerProgress.RebalancingTerminates` | src/os/sched/smp_scheduler.cpp:433-444 | so no run of them is longer than that sum |
| `SmpSchedulerProgress.RebalanceStopsIffBalanced` | src/os/sched/smp_scheduler.cpp:433-494 | with all queued threads ready, nothing is moved exactly when no ready count exceeds any load by more than one |
| `UserStackWriters.UserStackWriter.WriteQword` | src/os/proc/user_loader.cpp:119-136 | eight bytes, little-endian |
| `UserStackWriters.UserStackWriter.WriteCString` | src/os/proc/user_loader.cpp:138-157 | the text and a zero byte |
| `UserStackWriters.UserStackWriter.WriteStringsDown` | src/os/proc/user_loader.cpp:159-189 | strings downwards from the cursor, the last one first, or no result when one does not fit |
| `UserStackWriters.UserStackWriter.WriteTable` | src/os/proc/user_loader.cpp:191-211 | consecutive quadwords upwards from the address |
| `UserStackWriters.UserStackWriter.WriteInitial` | src/os/proc/user_loader.cpp:213-259 | the stack of the specification, or the length error with the strings that were already written in memory |
| `UserStack.WriteStringsEffect` | src/os/proc/user_loader.cpp:159-189 | strings fit exactly when their bytes do, lie in order where their pointers say, and nothing else is touched |
| `UserStack.FitsIff` | src/os/proc/user_loader.cpp:213-259 | the arguments fit exactly when some 16-aligned stack pointer leaves room for table and strings above it and inside the stack, and the one returned is the highest |
| `UserStack.StackRoundTrip` | src/os/proc/user_loader.cpp:65-259 | from the returned pointer a program that looks for the NULLs reads argc, that many arguments, the same ones, and the same environment; both NULLs are in their slots, the table ends below the strings, the strings lie apart inside the stack; the pointer is 16-byte aligned and inside the stack, as section 3.4.1 of the System V AMD64 psABI asks, without the auxiliary vector |
| `PhysicalPageAllocators.PhysicalPageAllocator.FindRun` | src/os/mm/physical_page_allocator.cpp:98-124 | the scan finds the lowest run of free pages, exactly when there is one |
| `PhysicalPageAllocators.PhysicalPageAllocator.AllocateContiguous` | src/os/mm/physical_page_allocator.cpp:90-127 | succeeds exactly when n consecutive free pages exist from the first allocatable page on, returns the lowest such run, marks only it and lowers the free count by n |
| `PhysicalPageAllocators.PhysicalPageAllocator.ReserveRange` | src/os/mm/physical_page_allocator.cpp:129-146 | marks the range, with every refusal |
| `PhysicalPageAllocators.PhysicalPageAllocator.FreePage` | src/os/mm/physical_page_allocator.cpp:148-157 | frees one allocated page, never a reserved low one |
| `PhysicalPageAllocators.MakeAllocator` | src/os/mm/physical_page_allocator.cpp:25-47 | the constructor's checks and a table in which exactly the low pages are taken |
| `PhysicalPageAllocators.RunNeedsFree` | src/os/mm/physical_page_allocator.cpp:93-96 | the early test of the free count refuses nothing that fits |
| `PhysicalPageAllocators.FreeUndoesAllocate` | src/os/mm/physical_page_allocator.cpp:90-157 | freeing the pages of a run gives back the table |

## Left out

- Performance counters, stage-8 timing and statistics of the caches: they count and decide nothing.
- Decoder, executor, devices, consoles, shell, system-call dispatch, futexes, sleep and wait queues, file descriptors: simple next to what is modelled.
- ELF header checks and user segments: a flat list of guards.
- `check_access_range` and accesses with paging off: a loop of translations, and plain memory.
- `map_range` and `identity_map_range`: loops over `map_page`.
- Paging state as an object: a walk gets the control bits, root, context and generation as values.
- In runs of copy-on-write a user store is one byte and walks the tables; that the TLB changes nothing is `TlbInvisibility.TlbIsInvisible`, and the CR3 reload after a resolved fault is `TlbRuns.NewGenerationIsCoherent`. The two are not composed with copy-on-write.
- The frame that the page allocator grants, and whether it has one, are inputs to copy-on-write; pages mapped to addresses outside physical memory are not part of its runs.
- Multi-block reads and writes of the block device: the cache uses single blocks.
- Crashes and partial flushes in the file system: the code promises nothing about them.
- Mounting beyond the superblock, and corrupt disks: the decoders model the checks of records, but a file system object starts from a disk that holds a sound file system.
- `CopyOnWriteManagers.CopyOnWriteManager.SharePages`: a parent and child that are the same address space are excluded.
- `CowRuns.FreshSystemShowsNothing`: the constructor also accepts a cursor that still points at the root, whose first new table would overwrite the root; such a start is left out.
- `UserStackWriters.UserStackWriter.WriteInitial`: the stack is a window of bytes, not translated page by page; the overflow checks on counts are unreachable for strings that fit and are not modelled.
- The scheduler's threads are numbers in one table, so that two objects for one thread are excluded; timer ticks are not modelled.
- Cache geometry: powers of two are not required, because quotient and remainder need only be positive; the guard that refuses other geometries is not modelled.

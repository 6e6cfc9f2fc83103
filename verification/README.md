# Memory manager of the prometheos kernel: model and proofs

The kernel's memory manager stacks three stateful components on one physical memory:

- the buddy allocator of frames (`kernel/src/mm/pmm.rs`), whose free lists are threaded through the
  free frames themselves and whose byte array `frame_order` tags every frame of a free block;
- the 4-level page tables (`kernel/src/mm/vmm.rs`), a radix tree of 512-entry tables in frames taken
  from the allocator, with bottom-up reclaim, range rollback and a recursive copy of the boot
  loader's tables;
- the slab heap (`kernel/src/mm/heap.rs`), which threads free objects through slab frames and hands
  out whole blocks for large layouts.

Boot code (`kernel/src/mm/mod.rs`) seeds the allocator from the memory map, and `IntLock`
(`kernel/src/utils.rs`) guards everything.

Physical memory is one sequence of frames of 512 words, shared by all three: list links, page-table
entries and object links are words in it, so "the allocator's writes do not disturb a page table" is
a statement about the same memory and not a modelling choice.

## Main results

1. **Canonical decomposition.** The allocator's invariant holds of a tag array if and only if every
   free frame carries the largest order whose aligned block around it is entirely free
   (`GoodIffCanonical`). So the free blocks are a function of the free set, whatever happened before
   (`FreeSetDeterminesTags`), allocation fails only when no aligned run is free (`AllocPages`), and any
   run that ends with the blocks live that were live at its start restores the identical blocks
   (`RunRestores`).
2. **The radix tree is a flat map.** `map` changes exactly its page and `unmap` clears exactly its
   page, for every mix of 4 KiB, 2 MiB and 1 GiB pages, also when reclaim frees tables on the way up;
   every failure leaves tables, free blocks and translations as they were; conflict and out-of-memory
   are characterised exactly. `unmap` undoes `map`, and `map_range` is all-or-nothing down to the
   allocator's free blocks. These rest on `ViewDeterminesPaths`: tables without empty nodes are
   determined by the translations. After a mapping `virt + k` translates to `phys + k` with the
   requested flags, over a page (`MappedPageTranslates`) and over a range (`RangeTranslates`).
3. **Copying tables preserves meaning.** `clone_table` of any tables in memory, shared or not, yields
   a tree of fresh frames with the same translation of every address, and fails exactly when there are
   fewer free frames than tables, giving back every frame it took.
4. **The heap.** Every slab is active, on its partial list once, or full; the unchecked unwrap is
   always defined; live allocations never overlap, avoid slab headers and keep their contents; each
   is the smallest object or block that suits its layout, and allocation fails exactly when no such
   object or block can be had.
5. **Together.** Operations of the page tables leave every heap allocation alone and the other way
   round (`MemoryManager`), starting from what `init` builds.
6. **The lock.** Over every interleaving of any number of CPUs: one owner per lock, the flag restored
   by an unlock is the CPU's own even if another CPU acquires in between, and nesting restores it.

## Layout

- `alignment.dfy`, `ranges.dfy`: powers of two, alignment, xor and mask on aligned numbers; how a range is cut.
- `buddy.dfy`, `runs.dfy`: the buddy decomposition seen through the tags; whole runs of the allocator.
- `memory.dfy`, `links.dfy`, `pmm.dfy`: physical memory, intrusive lists, the class `Pmm`.
- `entries.dfy`, `tables.dfy`, `views.dfy`: entries and addresses, tables in memory, what they mean.
- `vmmspec.dfy`, `rangespec.dfy`, `vmm.dfy`: the operations on snapshots and the class `Vmm`.
- `clonespec.dfy`, `clone.dfy`: copying tables and `take_ownership`.
- `slabs.dfy`, `layouts.dfy`, `heapspec.dfy`, `heap.dfy`: slabs, layouts and the class `Heap`.
- `boot.dfy`, `system.dfy`, `lock.dfy`: seeding, the whole memory manager, the lock protocol.

The state-changing operations are methods of classes that update fields, arrays and memory in place;
their contracts are relations between snapshots before and after (`Allocates`, `MapsPage`,
`UnmapsPage`, `Undone`, `Taken`, ...), and the theorems are lemmas about those relations.

The source writes the steps of `map` and `unmap` out for the PML4, PDPT, PD and PT one after the
other; `MapAt` and `UnmapAt` are that step once, with the level of the table as a parameter. The
comment at `kernel/src/mm/pmm.rs:11` says 2 MiB for order 11; 2^11 frames of 4 KiB are 8 MiB, and the
constant is what is modelled.

Where the source asserts or demands something of its caller it is a precondition: alignment and
range of a freed block, and that the caller owns it; physical addresses below 2^52; address sums that
fit 64 bits; a nonzero direct-map offset; and, for the boot loader's tables, that they lie in memory
the allocator does not hand out. Flags passed to `map` have no address bits. Physical memory, the
memory map, the direct-map offset and CR3 are parameters.

## Model

| member | source | states |
|---|---|---|
| Alignment.XorIsBuddy | kernel/src/mm/pmm.rs:236-241 | on an aligned frame, xor with 2^o is the other half of the enclosing block and clearing that bit is the block itself |
| Alignment.DownIsRemainder | kernel/src/mm/pmm.rs:218-223 | the alignment used throughout is divisibility by 2^o |
| BuddyTags.RemoveKeepsGood | kernel/src/mm/pmm.rs:164-178 | taking out a listed block keeps all other blocks, the invariant, and removes exactly its frames |
| BuddyTags.PushKeepsGood | kernel/src/mm/pmm.rs:147-162 | putting in an unused aligned block whose buddy is not free keeps the invariant and adds exactly its frames |
| BuddyTags.FreeBlockIsCovered | kernel/src/mm/pmm.rs:184-245 | an aligned run that is entirely free lies inside one listed block of at least its order |
| BuddyTags.GoodIffCanonical | kernel/src/mm/pmm.rs:184-245 | tags keep the invariant (whole aligned blocks, no two free buddies) iff each free frame has the largest order that fits around it |
| BuddyTags.FreeSetDeterminesTags | kernel/src/mm/pmm.rs:184-245 | history independence: equal free sets have equal tags at every frame |
| BuddyTags.LargeBlockIffRun | kernel/src/mm/pmm.rs:187-206 | a free block of order at least o exists iff an aligned run of 2^o free frames does |
| Links.PushLinks | kernel/src/mm/pmm.rs:147-160 | the writes of a push turn a well-linked list into the well-linked list with the new node in front |
| Links.RemoveLinks | kernel/src/mm/pmm.rs:164-176 | the writes of a removal, at head, middle or tail, leave the well-linked list without the node |
| FrameAllocator.TagIffListed | kernel/src/mm/pmm.rs:128-178 | a frame has tag o iff the aligned block around it is on list o; a tag match at an aligned frame means it is a list node |
| FrameAllocator.ListsDisjoint | kernel/src/mm/pmm.rs:31-37 | no node is on the lists of two orders |
| FrameAllocator.OwnedWrite | kernel/src/mm/pmm.rs:26-29 | writing a frame that is not free disturbs no free list |
| FrameAllocator.Pmm.constructor | kernel/src/mm/pmm.rs:102-115 | a new allocator is in order and has no free frame |
| FrameAllocator.Pmm.SetBlockOrder | kernel/src/mm/pmm.rs:128-133 | exactly the block's tags change |
| FrameAllocator.Pmm.BlockUnused | kernel/src/mm/pmm.rs:135-145 | the check passes iff no frame of the block is free |
| FrameAllocator.Pmm.ListPush | kernel/src/mm/pmm.rs:147-162 | all structures agree after the push, its assertion cannot fire, and only free frames are written |
| FrameAllocator.Pmm.ListRemove | kernel/src/mm/pmm.rs:164-178 | all structures agree after the removal and only frames that stay free are written |
| FrameAllocator.Pmm.AllocPages | kernel/src/mm/pmm.rs:184-207 | None iff no aligned run is free; otherwise a free run from a block of the smallest sufficient order, exactly its frames leave the free set, only free frames are written |
| FrameAllocator.Pmm.FreePages | kernel/src/mm/pmm.rs:209-245 | exactly the block's frames become free, the structures and the frame count agree, only frames free afterwards are written, no assertion fires |
| FrameAllocator.Pmm.AddRange | kernel/src/mm/pmm.rs:247-262 | exactly the given frames become free, with at most count/2048 + 22 calls |
| FrameAllocator.Pmm.AllocFrame | kernel/src/mm/pmm.rs:49-53 | fails iff nothing is free, otherwise takes one free frame |
| FrameAllocator.Pmm.FreeFrame | kernel/src/mm/pmm.rs:55-59 | the frame joins the free set |
| Ranges.ChunkOrder | kernel/src/mm/pmm.rs:249-255 | the largest order up to 11 that the start is aligned to and the count still holds |
| Ranges.ChunksAreFew | kernel/src/mm/pmm.rs:247-262 | the orders rise strictly, stay at 11, then fall strictly, so there are at most count/2048 + 22 |
| AllocatorRuns.RunConserves | kernel/src/mm/pmm.rs:184-262 | in every state of every run live blocks are aligned, pairwise disjoint and not free, and free plus live is what was added |
| AllocatorRuns.ReleaseIsAccepted | kernel/src/mm/pmm.rs:209-229 | releasing a live block passes every assertion of free_pages |
| AllocatorRuns.RunRestores | kernel/src/mm/pmm.rs:184-245 | a run that ends with the live blocks it began with ends with identical free blocks at every order |
| AllocatorRuns.AddOrderIrrelevant | kernel/src/mm/pmm.rs:247-262 | adding two ranges in either order gives the same tags |
| Entries.MakeEntry | kernel/src/mm/vmm.rs:437-464 | frame and flags can be read back from an entry, each untouched by the other |
| Entries.EntrySplits | kernel/src/mm/vmm.rs:437-464 | the address mask keeps bits 12 to 51 and the flags are all other bits |
| Entries.TableEntry | kernel/src/mm/vmm.rs:376-386 | an entry for a table names its frame and has the bits P, RW and US and no other |
| Entries.PageSize.Bytes | kernel/src/mm/vmm.rs:22-30 | the sizes are 4 KiB, 2 MiB and 1 GiB: what one entry of a PT, a PD and a PDPT covers |
| Entries.PageSize.Leaf | kernel/src/mm/vmm.rs:139-215 | the leaf of a size is present, names the frame, ends the walk at its level and has the requested flags |
| Entries.LargeLeafFlags | kernel/src/mm/vmm.rs:388-400 | the flags of a large leaf are exactly P and PS and the RW, US, PWT, PCD, G and XD bits of the argument; no other bit survives |
| Entries.IndicesIdentifyPage | kernel/src/mm/vmm.rs:362-365 | for canonical addresses the table indices down to a level are equal iff the addresses share the page of that level |
| Entries.IndicesAreDigits | kernel/src/mm/vmm.rs:67-96 | the four table indices are the nine-bit digits of the address above its twelve offset bits |
| VmmSpec.CanonicalRange | kernel/src/mm/vmm.rs:362-365 | canonical are exactly the lowest and the highest 2^47 addresses |
| RangeSpec.PageInterval | kernel/src/mm/vmm.rs:22-30 | a page is the 4 KiB, 2 MiB or 1 GiB from its aligned start |
| Tables.WalkAfterWrite | kernel/src/mm/vmm.rs:59-103 | writing one slot of one table changes the walk of the addresses through it and of no other |
| Tables.AgreeKeeps | kernel/src/mm/vmm.rs:59-103 | memory changes outside the tables change no translation |
| Tables.LinkTable | kernel/src/mm/vmm.rs:129-134 | hanging an empty table into a hole keeps the tree and every translation |
| Tables.UnlinkTable | kernel/src/mm/vmm.rs:407-435 | taking out an empty table keeps the tree and every translation |
| Views.ViewDeterminesPaths | kernel/src/mm/vmm.rs:407-435 | without empty tables, equal translations mean tables at equal paths |
| Views.SlotPresentIffMapped | kernel/src/mm/vmm.rs:139-142 | without empty tables, a slot is present iff some canonical address of its page is mapped |
| VmmSpec.BlockedIffMapped | kernel/src/mm/vmm.rs:139-150 | exact conflict detection: map meets a present slot iff some address of the page is mapped, whatever the page sizes |
| VmmSpec.MappedPageTranslates | kernel/src/mm/vmm.rs:105-219 | after a successful map, virt + k translates to phys + k with the requested flags, for every k below 4 KiB, 2 MiB or 1 GiB |
| VmmSpec.MapKeepsTidy | kernel/src/mm/vmm.rs:105-219 | a successful map leaves no empty table below the root |
| VmmSpec.UnmapKeepsTidy | kernel/src/mm/vmm.rs:221-288 | neither does a successful unmap |
| VmmSpec.UnmapUndoesMap | kernel/src/mm/vmm.rs:105-288 | map then unmap restores the translations, the tables and the allocator's free blocks |
| VmmSpec.AttachThenUndo | kernel/src/mm/vmm.rs:156-203 | a table attached, a failure below it and its removal leave tables, free blocks and translations as before |
| VirtualMemory.Vmm.Translate | kernel/src/mm/vmm.rs:59-103 | the address and flag bits the hardware walk gives; none iff the address is not canonical or not mapped |
| VirtualMemory.Vmm.Attach | kernel/src/mm/vmm.rs:156-170 | a fresh zeroed table hangs in the hole, in an entry with exactly P, RW and US, or nothing is free and nothing changed |
| VirtualMemory.Vmm.Detach | kernel/src/mm/vmm.rs:194-201 | the slot is a hole, the table's frame is free again, no translation changed |
| VirtualMemory.Vmm.IsEmpty | kernel/src/mm/vmm.rs:402-405 | true iff no entry is present |
| VirtualMemory.Vmm.Reclaim | kernel/src/mm/vmm.rs:407-435 | a table that became empty is freed, no other table has become empty |
| VirtualMemory.Vmm.Map | kernel/src/mm/vmm.rs:105-219 | exactly the page changes on success, every new table is used and named by an entry with exactly P, RW and US; each error exactly when its condition holds, out-of-memory iff fewer free frames than missing tables; on error nothing changed |
| VirtualMemory.Vmm.Unmap | kernel/src/mm/vmm.rs:221-288 | succeeds iff a leaf of this size maps the address, then clears exactly its page; otherwise nothing changed |
| VirtualMemory.Vmm.MapRange | kernel/src/mm/vmm.rs:290-315 | all pages of an unmapped, aligned, canonical range, or, refused at the first page that map refuses, all translations and with no empty tables also the tables and free blocks as before |
| VirtualMemory.RangeTranslates | kernel/src/mm/vmm.rs:290-315 | after a mapped range, virt + k translates to phys + k with the requested flags, for every k below the number of pages times the page size |
| VirtualMemory.Vmm.RollBack | kernel/src/mm/vmm.rs:307-311 | every unmap of the rollback succeeds and the state before the range is restored |
| VirtualMemory.Vmm.UnmapRange | kernel/src/mm/vmm.rs:317-328 | stops at the first page that cannot be unmapped, with exactly the pages before it unmapped |
| VirtualMemory.RefusedBecauseMapped | kernel/src/mm/vmm.rs:290-315 | a range refused as mapped had a mapped address before the call |
| CloneSpec.CloneTranslates | kernel/src/mm/vmm.rs:439-469 | the copy is a tree with tables at the source's paths and the same translation of every address |
| CloneSpec.SourceExists | kernel/src/mm/vmm.rs:439-469 | any tables in memory, shared or not, are a source the copy accepts |
| Cloning.FreeClonedTable | kernel/src/mm/vmm.rs:471-484 | exactly the frames of the tree become free |
| Cloning.CloneTable | kernel/src/mm/vmm.rs:439-469 | fails iff fewer frames are free than the source has tables, and then the free blocks are as before; otherwise a copy in frames that were free, writing nothing else |
| Cloning.TakeOwnership | kernel/src/mm/vmm.rs:491-498 | the new root translates as the old one, shares no frame with it, leaves it untouched, and CR3 keeps its flags |
| Slabs.ObjCount | kernel/src/mm/heap.rs:179-182 | the objects and the header's room fill the frame exactly |
| Slabs.PopObject | kernel/src/mm/heap.rs:131-134 | the first free object leaves the list and no live object's words change |
| Slabs.PushObject | kernel/src/mm/heap.rs:145-147 | the object is in front of the list and no other live object's words change |
| Slabs.PlacedOnce | kernel/src/mm/heap.rs:141-158 | a slab on a partial list has a free object, is on no other list and not active |
| Slabs.Promote | kernel/src/mm/heap.rs:161-171 | moving the head of the partial list to active keeps the placement of all slabs |
| Slabs.Demote | kernel/src/mm/heap.rs:153-156 | a full slab that got an object back goes on its partial list, keeping the placement of all slabs |
| Layouts.NextPowerOfTwo | kernel/src/mm/heap.rs:223 | the least power of two not below |
| Layouts.BucketFits | kernel/src/mm/heap.rs:218-225 | a layout has a bucket iff size and alignment are at most 1024, and then it is the one with the smallest objects that are large and aligned enough |
| Layouts.OrderFits | kernel/src/mm/heap.rs:228-233 | a layout has an order iff size and alignment are at most 8 MiB, and then it is the smallest whose blocks are large and aligned enough |
| HeapSpec.CapacityIsLeast | kernel/src/mm/heap.rs:218-233 | what is reserved for a layout is the smallest object size or power of two of frames that suits it |
| HeapSpec.LiveDisjoint | kernel/src/mm/heap.rs:83-105 | live allocations, small or large, never overlap |
| HeapSpec.ObjectAvoidsHeader | kernel/src/mm/heap.rs:102-103 | a live object lies past its slab's header and masking its address finds the slab |
| HeapSpec.TakenLive | kernel/src/mm/heap.rs:108-139 | taking an object makes live exactly a pointer that was not |
| HeapSpec.ReturnedLive | kernel/src/mm/heap.rs:141-158 | giving it back ends exactly that pointer's life |
| KernelHeap.Heap.constructor | kernel/src/mm/heap.rs:69-81 | an empty heap is in order |
| KernelHeap.Heap.PopFrom | kernel/src/mm/heap.rs:131-134 | the unchecked unwrap is defined and the object taken was free |
| KernelHeap.Heap.PromotePartial | kernel/src/mm/heap.rs:161-171 | the head of the partial list becomes active, with a free object |
| KernelHeap.ThreadObjects | kernel/src/mm/heap.rs:185-195 | the free list of the new slab is all its objects |
| KernelHeap.Heap.Refill | kernel/src/mm/heap.rs:174-196 | fails iff no frame is free; otherwise a free frame is a slab with every object free |
| KernelHeap.Heap.AllocSmall | kernel/src/mm/heap.rs:108-139 | null iff every slab of the bucket is full and no frame is free; otherwise a free object is taken, from a new slab iff every slab of the bucket is full |
| KernelHeap.Heap.DeallocSmall | kernel/src/mm/heap.rs:141-158 | the object is free again and the slab is placed where it belongs |
| KernelHeap.Heap.AllocLarge | kernel/src/mm/heap.rs:199-207 | null iff the layout exceeds 8 MiB or no aligned run of the least sufficient order is free; otherwise a free run is taken |
| KernelHeap.Heap.DeallocLarge | kernel/src/mm/heap.rs:210-215 | the block with the order of its layout becomes free |
| KernelHeap.Heap.Alloc | kernel/src/mm/heap.rs:83-91 | up to 1024 bytes, null iff no frame is free and no slab with the smallest sufficient objects has a free one; beyond, null as in AllocLarge; otherwise memory nobody holds, large and aligned enough, at the cost of one frame iff every slab for the layout is full, or of exactly the block; all other allocations and their contents kept |
| KernelHeap.Heap.Dealloc | kernel/src/mm/heap.rs:93-104 | exactly the pointer is no longer live, all other allocations and their contents kept |
| Boot.AlignIsNearest | kernel/src/mm/mod.rs:132-142 | align_up is the nearest multiple not below, align_down the nearest not above |
| Boot.HighestEnd | kernel/src/mm/mod.rs:42-48 | the highest end of all entries |
| Boot.TotalIsLeast | kernel/src/mm/mod.rs:50 | the number of frames is the least that contains every entry |
| Boot.MetadataFits | kernel/src/mm/mod.rs:51-83 | the metadata has one byte per frame, less than a frame to spare, and lies in its entry |
| Boot.WholeFrames | kernel/src/mm/mod.rs:88-89 | the frames of a usable entry are those that lie in it with every byte |
| Boot.FindHolder | kernel/src/mm/mod.rs:60-66 | the first usable entry large enough for the metadata |
| Boot.PiecesCover | kernel/src/mm/mod.rs:91-95 | the two pieces are disjoint and are the entry without the metadata |
| Boot.AddEntry | kernel/src/mm/mod.rs:84-107 | exactly the entry's frames without metadata and frame 0 become free |
| Boot.SeedFrames | kernel/src/mm/mod.rs:42-108 | the frames counted are the fewest that contain every entry; the metadata is the frames of one byte per frame from the start of the first usable entry with that room; the free set is all usable frames minus the metadata minus frame 0; fails iff no usable entry has the room |
| MemoryManagement.Init | kernel/src/mm/mod.rs:34-130 | a memory manager in order, translating as the boot loader's tables did; the free frames and the new tables' frames are the seeded set; CR3 names the new root with its flags kept; None iff the metadata or the tables do not fit |
| MemoryManagement.VmmStepKeepsHeap | kernel/src/mm/vmm.rs:105-328 | any step of the page tables keeps every heap allocation and its contents |
| MemoryManagement.HeapStepKeepsTables | kernel/src/mm/heap.rs:83-105 | any step of the heap keeps every table and every translation |
| MemoryManagement.MemoryManager.Map | kernel/src/mm/vmm.rs:334-336 | as Vmm.Map, each answer exactly under its condition, with the heap and the ownership of all frames kept |
| MemoryManagement.MemoryManager.Unmap | kernel/src/mm/vmm.rs:344-346 | as Vmm.Unmap, succeeding iff a leaf of this size maps the address, with the heap and the ownership of all frames kept |
| MemoryManagement.MemoryManager.Alloc | kernel/src/mm/heap.rs:83-91 | as Heap.Alloc, null iff exhausted for the layout, with tables and translations kept |
| MemoryManagement.MemoryManager.Dealloc | kernel/src/mm/heap.rs:93-104 | as Heap.Dealloc, with tables and translations kept |
| Locks.StepKeepsInvariant | kernel/src/utils.rs:55-80 | every atomic step of every CPU keeps the protocol's invariant |
| Locks.MutualExclusion | kernel/src/utils.rs:61-80 | in every state of every run a lock has at most one owner, and is marked locked iff it has one |
| Locks.AttemptWinsIffUnowned | kernel/src/utils.rs:61-72 | the compare-exchange wins iff no CPU owns the lock; an attempt that fails changes nothing |
| Locks.LockThenUnlock | kernel/src/utils.rs:55-80 | locking a free lock gives it to the CPU with interrupts off; unlocking leaves every CPU as before and the lock free |
| Locks.CriticalSectionRestores | kernel/src/utils.rs:131-142 | a critical section runs with interrupts off and leaves everything as it was |
| Locks.UnlockRestoresOwnFlag | kernel/src/utils.rs:74-80 | the flag after an unlock is the one the CPU had when it asked for the lock, whatever other CPUs do after the release store |
| Locks.NestingRestoresFlag | kernel/src/utils.rs:131-142 | any nesting of locks and critical sections leaves the interrupt flag as it was |

## Left out

- VirtualMemory.Vmm.Translate: returns the leaf's bits outside the address mask; the truncation to the flag type's known bits is not modelled, because the flag type is defined in a crate that is not part of this model.
- KernelHeap.Heap.Alloc: the alignment of the result is stated for a direct-map offset that is a multiple of 8 MiB; the source relies on such an offset and does not check it.
- Locks.NestingRestoresFlag: sections are left in reverse order of entering them; guards dropped out of order are not modelled. Memory orderings are not modelled: steps are atomic.
- VirtualMemory.Vmm.UnmapRange: is not atomic in the source and is not claimed to be.
- TLB and paging-structure caches: flushes are no-ops here.
- The bytes of `frame_order` are an array of their own; that they lie in the metadata frames is kept only as those frames not being free.
- 64-bit overflow: the address sums of the range operations and of boot are required to fit.
- `reclaim_bootloader`, `install`, `stats`, `map_hhdm`, `Singleton` and `SpinLock`: they would only add easy members.
- ACPI, PCI, APIC, descriptor tables, serial and timer code: port I/O and hardware set-up with little logic of their own.

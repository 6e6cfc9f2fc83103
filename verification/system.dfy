/** The memory manager as a whole: the frame allocator, the page tables and the heap share physical
  memory and one free set, and stay out of each other's frames (kernel/src/mm/mod.rs:42-138).
 */
module MemoryManagement {
  import opened Alignment
  import opened BuddyTags
  import opened Memory
  import opened Links
  import opened FrameAllocator
  import opened Entries
  import opened Tables
  import opened Views
  import opened VmmSpec
  import opened VirtualMemory
  import opened CloneSpec
  import opened Cloning
  import opened Slabs
  import opened Layouts
  import opened HeapSpec
  import opened KernelHeap
  import opened Boot

  ghost function HeapFrames(h: Holdings): set<nat> {
    h.store.bucketOf.Keys + LargeFrames(h.large)
  }

  /** Whatever stays out of the heap's frames leaves every allocation as it is. */
  lemma HeapUndisturbed(h: Holdings, hhdm: nat, m': seq<Frame>, tags': Tags, written: set<nat>)
    requires Held(h, hhdm) && Good(tags') && |tags'| == |h.tags|
    requires FreeSet(tags') !! HeapFrames(h) && written !! HeapFrames(h) && SameOutside(h.store.m, m', written)
    ensures var h' := Holdings(h.store.(m := m'), h.large, tags');
            && Held(h', hhdm) && ContentsKept(h, h')
            && forall p: Word, l: Layout :: Live(h', hhdm, p, l) <==> Live(h, hhdm, p, l)
  {
    hide Good, FreeSet, StoreOk, Pow2, Interval, BucketFor, OrderForLarge, ObjSize, IsObject;
    var h' := Holdings(h.store.(m := m'), h.large, tags');
    forall f, x | f in h.large && x in Run(f, h.large[f]) ensures x in HeapFrames(h) { }
    StoreElsewhere(h.store, hhdm, m');
    forall f | f in h'.large ensures LargeOk(h', f) { assert LargeOk(h, f); }
  }

  class MemoryManager {
    const pmm: Pmm
    const vmm: Vmm
    const heap: Heap

    /** All three are in order, and no frame is both a table and the heap's. */
    ghost predicate Valid()
      reads vmm, heap, heap.active, heap.partial, vmm.pmm.Footprint(), heap.pmm.Footprint(), pmm.Footprint()
    {
      && vmm.pmm == pmm && heap.pmm == pmm && vmm.Valid() && heap.Valid()
      && vmm.tables.Values !! HeapFrames(heap.Now())
    }

    constructor (pmm: Pmm, vmm: Vmm, heap: Heap)
      requires vmm.pmm == pmm && heap.pmm == pmm && vmm.Valid() && heap.Valid()
      requires vmm.tables.Values !! HeapFrames(heap.Now())
      ensures Valid() && this.pmm == pmm && this.vmm == vmm && this.heap == heap
    {
      this.pmm, this.vmm, this.heap := pmm, vmm, heap;
    }

    /** Mapping never disturbs the heap. */
    method Map(virt: Word, phys: PAddr, flags: Word, size: PageSize) returns (r: Result<MapError>)
      requires Valid() && phys < PHYS_LIMIT && Target(flags) == 0
      modifies vmm, pmm.Footprint()
      ensures Valid() && HeapSame(old(heap.Now()), heap.Now(), pmm.hhdm)
      ensures r == Err(MapNonCanonical) <==> !Canonical(virt)
      ensures r == Err(MapMisaligned) <==> Canonical(virt) && !PageAligned(virt, phys, size)
      ensures r == Err(AlreadyMapped) <==>
                Canonical(virt) && PageAligned(virt, phys, size) && old(Conflict(vmm.Now(), virt, size))
      ensures r == Err(OutOfMemory) <==>
                && Canonical(virt) && PageAligned(virt, phys, size) && !old(Conflict(vmm.Now(), virt, size))
                && old(|pmm.Free()| < TablesNeeded(vmm.Now(), virt, size))
      ensures r.Ok? || r == Err(OutOfMemory) ==> !old(SomeMapped(vmm.Now(), virt, size.Level()))
      ensures old(Tidy(vmm.Now().m, vmm.tables)) && r == Err(AlreadyMapped) ==>
                old(SomeMapped(vmm.Now(), virt, size.Level()))
      ensures old(Tidy(vmm.Now().m, vmm.tables)) ==> Tidy(vmm.Now().m, vmm.tables)
      ensures r.Ok? ==> MapsPage(old(vmm.Now()), vmm.Now(), virt, size.Level(), size.Leaf(phys / FRAME_SIZE, flags))
      ensures r.Err? ==> Undone(old(vmm.Now()), vmm.Now())
    {
      hide Sound, Held, FreeSet, Good, Pmm.Valid, HeapFrames, MapsPage, Undone, HeapSame, Conflict, TablesNeeded, SomeMapped, Tidy, PageAligned, Canonical, PageSize.Leaf;
      ghost var s, h := vmm.Now(), heap.Now();
      r := vmm.Map(virt, phys, flags, size);
      MapOrUndoneEvolves(s, vmm.Now(), virt, size, phys / FRAME_SIZE, flags);
      VmmStepKeepsHeap(s, vmm.Now(), h, pmm.hhdm);
    }

    /** Neither does unmapping. */
    method Unmap(virt: Word, size: PageSize) returns (r: Result<UnmapError>)
      requires Valid()
      modifies vmm, pmm.Footprint()
      ensures Valid() && HeapSame(old(heap.Now()), heap.Now(), pmm.hhdm)
      ensures r == Err(UnmapNonCanonical) <==> !Canonical(virt)
      ensures r == Err(UnmapMisaligned) <==> Canonical(virt) && virt % size.Bytes() != 0
      ensures r.Ok? <==>
                Canonical(virt) && virt % size.Bytes() == 0 && MappedAt(old(At(vmm.Now(), virt)), size.Level())
      ensures old(Tidy(vmm.Now().m, vmm.tables)) ==> Tidy(vmm.Now().m, vmm.tables)
      ensures r.Ok? ==> UnmapsPage(old(vmm.Now()), vmm.Now(), virt, size.Level(), Root)
      ensures r.Err? ==> vmm.Now() == old(vmm.Now())
    {
      hide Sound, Held, FreeSet, Good, Pmm.Valid, HeapFrames, UnmapsPage, HeapSame, Tidy, Canonical, MappedAt;
      ghost var s, h := vmm.Now(), heap.Now();
      r := vmm.Unmap(virt, size);
      UnmapOrSameEvolves(s, vmm.Now(), virt, size);
      VmmStepKeepsHeap(s, vmm.Now(), h, pmm.hhdm);
    }

    /** Allocating from the heap never changes a translation. */
    method Alloc(layout: Layout) returns (ptr: Word)
      requires Valid() && layout.Valid()
      modifies heap, heap.active, heap.partial, pmm.Footprint()
      ensures Valid() && SameTranslations(old(vmm.Now()), vmm.Now()) && vmm.tables == old(vmm.tables)
      ensures OthersLive(old(heap.Now()), heap.Now(), pmm.hhdm, ptr) && ContentsKept(old(heap.Now()), heap.Now())
      ensures ptr == 0 <==> Exhausted(old(heap.Now()), layout)
      ensures ptr != 0 ==> Live(heap.Now(), pmm.hhdm, ptr, layout)
                           && forall l: Layout :: !Live(old(heap.Now()), pmm.hhdm, ptr, l)
      ensures ptr != 0 ==> layout.size <= Capacity(layout) && Spends(old(heap.Now()), heap.Now(), layout)
      ensures ptr != 0 && Aligned(pmm.hhdm, HHDM_SHIFT) ==> ptr % layout.align == 0
    {
      hide Sound, Held, FreeSet, Good, Pmm.Valid, HeapFrames, HeapEvolves, ContentsKept, OthersLive, Live, Log2, Down, SameTranslations, Exhausted, Capacity, Spends;
      ghost var s, h := vmm.Now(), heap.Now();
      ptr := heap.Alloc(layout);
      HeapStepKeepsTables(s, h, heap.Now(), pmm.hhdm);
    }

    /** Neither does giving memory back. */
    method Dealloc(ptr: Word, layout: Layout)
      requires Valid() && pmm.hhdm % FRAME_SIZE == 0 && (ptr == 0 || Live(heap.Now(), pmm.hhdm, ptr, layout))
      modifies heap, heap.partial, pmm.Footprint()
      ensures Valid() && SameTranslations(old(vmm.Now()), vmm.Now()) && vmm.tables == old(vmm.tables)
      ensures OthersLive(old(heap.Now()), heap.Now(), pmm.hhdm, ptr) && ContentsKept(old(heap.Now()), heap.Now())
      ensures forall l: Layout :: !Live(heap.Now(), pmm.hhdm, ptr, l)
    {
      hide Sound, Held, FreeSet, Good, Pmm.Valid, HeapFrames, HeapEvolves, ContentsKept, OthersLive, Live, SameTranslations;
      ghost var s, h := vmm.Now(), heap.Now();
      heap.Dealloc(ptr, layout);
      HeapStepKeepsTables(s, h, heap.Now(), pmm.hhdm);
    }
  }

  /** A step of the heap, seen from the page tables. */
  lemma HeapStepKeepsTables(s: Snap, h: Holdings, h': Holdings, hhdm: nat)
    requires Sound(s) && Held(h, hhdm) && Held(h', hhdm) && HeapEvolves(h, h')
    requires h.store.m == s.m && h.tags == s.tags && s.tables.Values !! HeapFrames(h)
    ensures var s' := Snap(h'.store.m, s.tables, h'.tags);
            && Sound(s') && SameTranslations(s, s') && s.tables.Values !! HeapFrames(h')
  {
    hide Shaped, Injective, Good, FreeSet, StoreOk, SameOutside, LargeFrames, LargeOk, Run;
    AllocatorLeavesTables(s, h'.store.m, HeapPool(h), h'.tags);
  }

  lemma UnmapOrSameEvolves(s: Snap, s': Snap, virt: Word, size: PageSize)
    requires Sound(s) && (UnmapsPage(s, s', virt, size.Level(), Root) || s' == s)
    ensures Evolves(s, s')
  {
    hide Sound, FreeSet;
    if s' == s { SameOutsideSelf(s.m, Pool(s)); }
  }

  /** `init`: seeds the allocator, takes over the boot loader's tables and starts with an empty heap.
      `None` is its panic for want of room for the metadata, or running out of frames. */
  method Init(entries: seq<Entry>, hhdm: nat, ram: Ram, cr3: Word, ghost src: TableMap)
    returns (r: Option<MemoryManager>, newCr3: Word, ghost holder: nat)
    requires WellFormed(entries) && TotalFrames(entries) <= |ram.frames| && TotalFrames(entries) <= ADDRESS_FRAMES
    requires 0 < hhdm && Pointer(hhdm, TotalFrames(entries)) <= WORD_LIMIT
    requires Shaped(ram.frames, src) && src.Values !! UsableFrames(entries, |entries|) && src[Root] == Target(cr3)
    modifies ram
    ensures r.None? <==> forall k: nat ::
              Holds(entries, k) ==> |UsableFrames(entries, |entries|) - Metadata(entries, k) - {0}| < |src|
    ensures r.None? ==> newCr3 == cr3
    ensures r.Some? ==> r.value.Valid() && r.value.heap.bucketOf == map[] && r.value.heap.large == map[]
    ensures r.Some? ==>
              && Holds(entries, holder) && r.value.vmm.tables.Keys == src.Keys
              && Pool(r.value.vmm.Now()) == UsableFrames(entries, |entries|) - Metadata(entries, holder) - {0}
              && Target(newCr3) == r.value.vmm.tables[Root] && FlagBits(newCr3) == FlagBits(cr3)
    ensures r.Some? ==> forall v: Word :: At(r.value.vmm.Now(), v) == View(old(ram.frames), src, v)
  {
    hide Shaped, FreeSet, Good, Pmm.Valid, View, WellFormed, TotalFrames, UsableFrames, Metadata, Holds, SameOutside, Target, FlagBits, Held, Sound;
    ghost var m0 := ram.frames;
    var seeded;
    seeded, holder := SeedFrames(entries, hhdm, ram);
    if seeded.None? { return None, cr3, holder; }
    var pmm := seeded.value;
    OneHolder(entries, holder);
    pmm.ValidSizes();
    SeedKeepsSource(m0, ram.frames, src, pmm.Tags());
    var vmm;
    vmm, newCr3 := TakeOwnership(pmm, cr3, src);
    if vmm.None? { return None, cr3, holder; }
    var heap := new Heap(pmm);
    NoHeapFrames(heap.Now());
    var manager := new MemoryManager(pmm, vmm.value, heap);
    return Some(manager), newCr3, holder;
  }

  lemma OneHolder(entries: seq<Entry>, k: nat)
    requires Holds(entries, k)
    ensures forall j: nat :: Holds(entries, j) ==> j == k
  {
    hide TotalFrames;
  }

  /** The boot loader's tables lie outside the frames handed to the allocator. */
  lemma SeedKeepsSource(m0: seq<Frame>, m: seq<Frame>, src: TableMap, t: Tags)
    requires Shaped(m0, src) && src.Values !! FreeSet(t) && SameOutside(m0, m, FreeSet(t))
    requires |t| <= |m| && |t| <= ADDRESS_FRAMES
    ensures SourceOwned(m, src, t) && forall v: Word :: View(m, src, v) == View(m0, src, v)
  {
    hide FreeSet, Attached, Walk, View;
    forall p | p in src ensures src[p] !in FreeSet(t) { assert src[p] in src.Values; }
    AgreeKeeps(m0, m, src);
  }

  lemma NoHeapFrames(h: Holdings)
    requires h.store.bucketOf == map[] && h.large == map[]
    ensures HeapFrames(h) == {}
  {
  }

  /** The heap's allocations, bookkeeping and contents are as they were. */
  ghost predicate HeapSame(h: Holdings, h': Holdings, hhdm: nat) {
    && ContentsKept(h, h') && HeapFrames(h') == HeapFrames(h)
    && forall p: Word, l: Layout :: Live(h', hhdm, p, l) <==> Live(h, hhdm, p, l)
  }

  lemma MapOrUndoneEvolves(s: Snap, s': Snap, virt: Word, size: PageSize, frame: nat, flags: Word)
    requires frame < ADDRESS_FRAMES && Target(flags) == 0
    requires MapsPage(s, s', virt, size.Level(), size.Leaf(frame, flags)) || Undone(s, s')
    ensures Evolves(s, s')
  {
  }

  /** A step of the page tables, seen from the heap. */
  lemma VmmStepKeepsHeap(s: Snap, s': Snap, h: Holdings, hhdm: nat)
    requires Evolves(s, s') && Held(h, hhdm) && h.store.m == s.m && h.tags == s.tags
    requires s.tables.Values !! HeapFrames(h)
    ensures var h' := Holdings(h.store.(m := s'.m), h.large, s'.tags);
            Held(h', hhdm) && HeapSame(h, h', hhdm) && s'.tables.Values !! HeapFrames(h')
  {
    hide Shaped, Injective, Good, FreeSet, StoreOk, ContentsKept, Live, SameOutside;
    HeapNotFree(h, hhdm);
    HeapUndisturbed(h, hhdm, s'.m, s'.tags, Pool(s));
  }

  lemma HeapNotFree(h: Holdings, hhdm: nat)
    requires Held(h, hhdm)
    ensures HeapFrames(h) !! FreeSet(h.tags)
  {
    hide Good, FreeSet, StoreOk, Pow2, Interval;
    forall f, x | f in h.large && x in Run(f, h.large[f]) ensures x !in FreeSet(h.tags) { assert LargeOk(h, f); }
  }
}

/** The virtual memory manager (kernel/src/mm/vmm.rs).

  The ghost map `tables` names every table reachable from `topLevel`.  The source writes the steps
  for the PML4, PDPT, PD and PT out one after the other; `MapAt` and `UnmapAt` are that step once,
  for the table of a given level on the walk of the address.
 */
module VirtualMemory {
  import opened Alignment
  import opened BuddyTags
  import opened Memory
  import opened FrameAllocator
  import opened Entries
  import opened Tables
  import opened Views
  import opened VmmSpec
  import opened RangeSpec

  datatype MapError = AlreadyMapped | OutOfMemory | MapNonCanonical | MapMisaligned
  datatype UnmapError = NotMapped | UnmapNonCanonical | UnmapMisaligned
  datatype Result<+E> = Ok | Err(error: E)

  class Vmm {
    const pmm: Pmm
    const topLevel: PAddr
    ghost var tables: TableMap

    ghost function Now(): Snap
      reads this, pmm.Footprint()
    {
      Snap(pmm.ram.frames, tables, pmm.Tags())
    }

    ghost predicate Valid()
      reads this, pmm.Footprint()
    {
      pmm.Valid() && Sound(Now()) && topLevel == tables[Root] * FRAME_SIZE
    }

    /** `Vmm::new` on a root whose tables the caller owns. */
    constructor (pmm: Pmm, topLevel: PAddr, ghost tables: TableMap)
      requires pmm.Valid() && Sound(Snap(pmm.ram.frames, tables, pmm.Tags()))
      requires topLevel == tables[Root] * FRAME_SIZE
      ensures Valid() && this.pmm == pmm && this.topLevel == topLevel && this.tables == tables
    {
      this.pmm, this.topLevel, this.tables := pmm, topLevel, tables;
    }

    // -------------------------------------------------------------- one slot

    /** Hangs a fresh zeroed table into a hole; `None` exactly when no frame is free. */
    method Attach(ghost p: Path, t: nat, i: nat) returns (r: Option<nat>)
      requires Valid() && p in tables && t == tables[p] && i < FRAME_WORDS && Depth(p) < TOP_LEVEL
      requires !Present(Slot(pmm.ram.frames, tables, p, i))
      modifies this, pmm.Footprint()
      ensures Valid()
      ensures r.None? ==> Now() == old(Now()) && FreeSet(old(Now().tags)) == {}
      ensures r.Some? ==> Attaches(old(Now()), Now(), p, i, r.value)
    {
      hide Shaped, Injective, Good, FreeSet, Present, PageFlag, Target, EmptyTable, SameOutside, Pmm.Valid, Pmm.Structured;
      ghost var s := Now();
      var frame := pmm.AllocFrame();
      if frame.None? { return None; }
      var c := frame.value / FRAME_SIZE;
      ghost var m := pmm.ram.frames;
      pmm.ZeroOwned(c);
      ZeroedFrame(s.m, m, pmm.ram.frames, FreeSet(s.tags), FreeSet(pmm.Tags()), c);
      var w := TableEntry(c);
      AttachSteps(s, pmm.ram.frames, pmm.Tags(), p, i, c, w);
      TableNotFree(s, p);
      pmm.StoreOwned(t, i, w);
      tables := tables[Sub(p, i) := c];
      return Some(c);
    }

    /** Clears the slot of an empty table and frees the table's frame. */
    method Detach(ghost p: Path, t: nat, i: nat, c: nat)
      requires Valid() && p in tables && t == tables[p] && i < FRAME_WORDS
      requires Sub(p, i) in tables && c == tables[Sub(p, i)] && EmptyTable(pmm.ram.frames[c])
      modifies this, pmm.Footprint()
      ensures Valid() && Detaches(old(Now()), Now(), p, i)
    {
      hide Shaped, Injective, Good, FreeSet, Present, PageFlag, Target, EmptyTable, SameOutside, Pmm.Valid, Pmm.Structured;
      ghost var s := Now();
      TableNotFree(s, p);
      TableNotFree(s, Sub(p, i));
      pmm.StoreOwned(t, i, 0);
      FrameOfAddress(c);
      pmm.ValidSizes();
      pmm.FreeFrame(c * FRAME_SIZE);
      tables := tables - {Sub(p, i)};
      DetachSteps(s, pmm.ram.frames, pmm.Tags(), p, i);
    }

    /** `is_empty`: no entry has its present bit. */
    method IsEmpty(t: nat) returns (empty: bool)
      requires t < |pmm.ram.frames|
      ensures empty <==> EmptyTable(pmm.ram.frames[t])
    {
      for i := 0 to FRAME_WORDS
        invariant forall j: nat :: j < i ==> !Present(pmm.ram.frames[t][j])
      {
        if Present(pmm.ram.frames[t][i]) { return false; }
      }
      return true;
    }

    /** Writes a leaf or a hole over a leaf or a hole. */
    method StoreSlot(virt: Word, level: nat, t: nat, w: Word)
      requires Valid() && Canonical(virt) && level <= TOP_LEVEL && PathOf(virt, level) in tables
      requires t == tables[PathOf(virt, level)] && !Inner(level, w)
      requires !Inner(level, pmm.ram.frames[t][Index(virt, level)])
      modifies this, pmm.Footprint()
      ensures Valid() && Evolves(old(Now()), Now()) && tables == old(tables) && Now().tags == old(Now().tags)
      ensures OtherSlotsSame(old(Now()), Now(), PathOf(virt, level), Index(virt, level))
      ensures pmm.ram.frames[t][Index(virt, level)] == w
      ensures PageBecomes(old(Now()), Now(), virt, level, if Present(w) then Some(Hit(w, level)) else None)
    {
      hide Shaped, Injective, Good, FreeSet, Present, PageFlag, Target, SameOutside, Pmm.Valid, Pmm.Structured, Index, Canonical, SamePage, View;
      StoreSteps(Now(), virt, level, w);
      TableNotFree(Now(), PathOf(virt, level));
      pmm.StoreOwned(t, Index(virt, level), w);
    }

    // -------------------------------------------------------------- translate

    /** The address and flag bits an address translates to. */
    method Translate(virt: Word) returns (r: Option<(PAddr, Word)>)
      requires Valid()
      ensures r == Translation(Now(), virt)
      ensures r.None? <==> !Canonical(virt) || At(Now(), virt).None?
    {
      hide Shaped, Injective, Good, FreeSet, Present, PageFlag, Target, Index, Canonical, Pmm.Valid, Walk, FlagBits, Depth;
      if !Canonical(virt) { return None; }
      ghost var m := pmm.ram.frames;
      TopPath(virt);

      var pml4 := topLevel / FRAME_SIZE;
      var pml4e := pmm.ram.frames[pml4][Index(virt, 3)];
      WalkStep(m, tables, virt, 3);
      if !Present(pml4e) { return None; }

      var pdpt := Target(pml4e);
      var pdpte := pmm.ram.frames[pdpt][Index(virt, 2)];
      WalkStep(m, tables, virt, 2);
      if !Present(pdpte) { return None; }
      if PageFlag(pdpte) {
        return Some((Target(pdpte) * FRAME_SIZE + virt % 0x4000_0000, FlagBits(pdpte)));
      }

      var pd := Target(pdpte);
      var pde := pmm.ram.frames[pd][Index(virt, 1)];
      WalkStep(m, tables, virt, 1);
      if !Present(pde) { return None; }
      if PageFlag(pde) {
        return Some((Target(pde) * FRAME_SIZE + virt % 0x20_0000, FlagBits(pde)));
      }

      var pt := Target(pde);
      var pte := pmm.ram.frames[pt][Index(virt, 0)];
      WalkStep(m, tables, virt, 0);
      if !Present(pte) { return None; }
      return Some((Target(pte) * FRAME_SIZE + virt % 0x1000, FlagBits(pte)));
    }

    // -------------------------------------------------------------- map

    method MapAt(t: nat, level: nat, virt: Word, frame: nat, flags: Word, size: PageSize)
      returns (r: Result<MapError>)
      requires Valid() && Canonical(virt) && frame < ADDRESS_FRAMES && Target(flags) == 0
      requires size.Level() <= level <= TOP_LEVEL
      requires PathOf(virt, level) in tables && t == tables[PathOf(virt, level)]
      modifies this, pmm.Footprint()
      ensures Valid()
      ensures r.Ok? ==> MapsPage(old(Now()), Now(), virt, size.Level(), size.Leaf(frame, flags))
                        && Present(pmm.ram.frames[t][Index(virt, level)])
      ensures r.Err? ==> Undone(old(Now()), Now())
      ensures r == Err(AlreadyMapped) <==> old(Blocked(pmm.ram.frames, t, level, virt, size.Level()))
      ensures r == Err(OutOfMemory) <==>
                && !old(Blocked(pmm.ram.frames, t, level, virt, size.Level()))
                && old(|pmm.Free()| < Missing(pmm.ram.frames, t, level, virt, size.Level()))
      ensures r.Ok? || r == Err(AlreadyMapped) || r == Err(OutOfMemory)
      decreases level, 1
    {
      hide Shaped, Injective, Good, FreeSet, Present, PageFlag, Target, EmptyTable, SameOutside, Pmm.Valid, Pmm.Structured, Index, Canonical, SamePage, View, KeepsSlots, OtherSlotsSame, PageBecomes, NewTablesUsed;
      var i := Index(virt, level);
      var slot := pmm.ram.frames[t][i];
      ghost var s, p := Now(), PathOf(virt, level);
      if level == size.Level() {
        if Present(slot) {
          UndoneSelf(s);
          return Err(AlreadyMapped);
        }
        StoreSlot(virt, level, t, size.Leaf(frame, flags));
        StoreMaps(s, Now(), virt, level, size.Leaf(frame, flags));
        return Ok;
      }
      if Present(slot) && level <= 2 && PageFlag(slot) {
        UndoneSelf(s);
        return Err(AlreadyMapped);
      }
      if Present(slot) {
        WalkStep(s.m, s.tables, virt, level);
        r := MapAt(Target(slot), level - 1, virt, frame, flags, size);
        if r.Ok? { MapKeepsSlot(s, Now(), virt, size.Level(), size.Leaf(frame, flags), p, i); }
        return r;
      }
      r := MapThroughHole(t, level, virt, frame, flags, size);
    }

    /** `MapAt` where the next table is missing: attach one, go on below it, take it out again if
        memory runs out there. */
    method MapThroughHole(t: nat, level: nat, virt: Word, frame: nat, flags: Word, size: PageSize)
      returns (r: Result<MapError>)
      requires Valid() && Canonical(virt) && frame < ADDRESS_FRAMES && Target(flags) == 0
      requires size.Level() < level <= TOP_LEVEL
      requires PathOf(virt, level) in tables && t == tables[PathOf(virt, level)]
      requires !Present(pmm.ram.frames[t][Index(virt, level)])
      modifies this, pmm.Footprint()
      ensures Valid()
      ensures r.Ok? ==> MapsPage(old(Now()), Now(), virt, size.Level(), size.Leaf(frame, flags))
                        && Present(pmm.ram.frames[t][Index(virt, level)])
      ensures r.Err? ==> Undone(old(Now()), Now())
      ensures r == if old(|pmm.Free()|) < level - size.Level() then Err(OutOfMemory) else Ok
      decreases level, 0
    {
      hide Shaped, Injective, Good, FreeSet, Present, PageFlag, Target, EmptyTable, SameOutside, Pmm.Valid, Pmm.Structured, Index, Canonical, SamePage, View, KeepsSlots, OtherSlotsSame, PageBecomes, NewTablesUsed, NewLinksPermit, PageSize.Leaf, FlagBits, Attaches, MapsPage, Undone, Detaches, Evolves;
      ghost var s, p := Now(), PathOf(virt, level);
      var i := Index(virt, level);
      var c := Attach(p, t, i);
      if c.None? {
        UndoneSelf(s);
        return Err(OutOfMemory);
      }
      ghost var s1 := Now();
      AttachedFacts(s, s1, p, i, c.value);
      EmptyTableIsOpen(s1.m, c.value, level - 1, virt, size.Level());
      r := MapAt(c.value, level - 1, virt, frame, flags, size);
      ghost var s2 := Now();
      if r == Err(OutOfMemory) {
        UndoneFacts(s1, s2);
        UndoneHoles(s1, s2, Sub(p, i));
        Detach(p, t, i, c.value);
        AttachThenUndo(s, s1, s2, Now(), p, i, c.value);
      } else {
        NotEmpty(s2.m[c.value], Index(virt, level - 1));
        AttachThenMap(s, s1, s2, p, i, c.value, virt, size.Level(), size.Leaf(frame, flags));
      }
    }

    method Map(virt: Word, phys: PAddr, flags: Word, size: PageSize) returns (r: Result<MapError>)
      requires Valid() && phys < PHYS_LIMIT && Target(flags) == 0
      modifies this, pmm.Footprint()
      ensures Valid()
      ensures r == Err(MapNonCanonical) <==> !Canonical(virt)
      ensures r == Err(MapMisaligned) <==> Canonical(virt) && !PageAligned(virt, phys, size)
      ensures r == Err(AlreadyMapped) <==>
                Canonical(virt) && PageAligned(virt, phys, size) && old(Conflict(Now(), virt, size))
      ensures r == Err(OutOfMemory) <==>
                && Canonical(virt) && PageAligned(virt, phys, size) && !old(Conflict(Now(), virt, size))
                && old(|pmm.Free()| < TablesNeeded(Now(), virt, size))
      ensures r.Err? ==> Undone(old(Now()), Now())
      ensures r.Ok? ==> MapsPage(old(Now()), Now(), virt, size.Level(), size.Leaf(phys / FRAME_SIZE, flags))
      ensures r.Ok? || r == Err(OutOfMemory) ==> !old(SomeMapped(Now(), virt, size.Level()))
      ensures old(Tidy(Now().m, tables)) && r == Err(AlreadyMapped) ==> old(SomeMapped(Now(), virt, size.Level()))
      ensures old(Tidy(Now().m, tables)) ==> Tidy(Now().m, tables)
    {
      hide Shaped, Injective, Good, FreeSet, Present, PageFlag, Target, EmptyTable, SameOutside, Pmm.Valid, Pmm.Structured, Index, Canonical, SamePage, View;
      ghost var s := Now();
      if !Canonical(virt) {
        UndoneKeepsAll(s);
        return Err(MapNonCanonical);
      }
      if virt % size.Bytes() != 0 || phys % size.Bytes() != 0 {
        UndoneKeepsAll(s);
        return Err(MapMisaligned);
      }
      TopPath(virt);
      r := MapAt(topLevel / FRAME_SIZE, TOP_LEVEL, virt, phys / FRAME_SIZE, flags, size);
      if r != Err(AlreadyMapped) { OpenIsUnmapped(s, virt, TOP_LEVEL, size.Level()); }
      if Tidy(s.m, s.tables) { BlockedIffMapped(s, virt, TOP_LEVEL, size.Level()); }
      MapTidiness(s, Now(), virt, size.Level(), size.Leaf(phys / FRAME_SIZE, flags));
    }

    // -------------------------------------------------------------- unmap

    /** `NotMapped` unless the page of `virt` is mapped by one leaf of this very level; then the leaf
        is cleared and the table below each slot on the way back up goes if it became empty. */
    method UnmapAt(t: nat, level: nat, virt: Word, leaf: nat) returns (r: Result<UnmapError>)
      requires Valid() && Canonical(virt) && leaf <= level <= TOP_LEVEL && leaf <= 2
      requires PathOf(virt, level) in tables && t == tables[PathOf(virt, level)]
      modifies this, pmm.Footprint()
      ensures Valid()
      ensures r.Ok? ==> UnmapsPage(old(Now()), Now(), virt, leaf, PathOf(virt, level))
      ensures r.Err? ==> r == Err(NotMapped) && Now() == old(Now())
      ensures r.Ok? <==> MappedAt(Walk(old(pmm.ram.frames), t, level, virt), leaf)
      decreases level
    {
      hide Shaped, Injective, Good, FreeSet, Present, PageFlag, Target, EmptyTable, SameOutside, Pmm.Valid, Pmm.Structured, Index, Canonical, SamePage, View;
      var i := Index(virt, level);
      var slot := pmm.ram.frames[t][i];
      ghost var s, p := Now(), PathOf(virt, level);
      WalkStep(s.m, s.tables, virt, level);
      if !Present(slot) { return Err(NotMapped); }
      var table := level > 0 && !(level <= 2 && PageFlag(slot));
      if level == leaf {
        if table {
          WalkBelow(s.m, Target(slot), level - 1, virt);
          return Err(NotMapped);
        }
        HoleIsNoTable(level);
        StoreSlot(virt, level, t, 0);
        ClearUnmaps(s, Now(), virt, level);
        return Ok;
      }
      if !table { return Err(NotMapped); }
      r := UnmapAt(Target(slot), level - 1, virt, leaf);
      if r.Err? { return r; }
      Reclaim(s, virt, level, leaf, t, Target(slot));
    }

    /** `reclaim_pt`, `reclaim_pd` and `reclaim_pdpt`. */
    method Reclaim(ghost s: Snap, virt: Word, level: nat, ghost leaf: nat, t: nat, c: nat)
      requires Valid() && 0 < level <= TOP_LEVEL && PathOf(virt, level - 1) in tables
      requires c == tables[PathOf(virt, level - 1)] && PathOf(virt, level) in s.tables && t == s.tables[PathOf(virt, level)]
      requires UnmapsPage(s, Now(), virt, leaf, PathOf(virt, level - 1))
      modifies this, pmm.Footprint()
      ensures Valid() && UnmapsPage(s, Now(), virt, leaf, PathOf(virt, level))
    {
      hide Shaped, Injective, Good, FreeSet, Present, PageFlag, Target, EmptyTable, SameOutside, Pmm.Valid, Pmm.Structured, Index, Canonical, SamePage, View;
      ghost var s1, p := Now(), PathOf(virt, level);
      ParentStays(s, s1, virt, level);
      var empty := IsEmpty(c);
      if empty {
        Detach(p, t, Index(virt, level), c);
        UnmapThenDetach(s, s1, Now(), virt, leaf, p, Index(virt, level));
      } else {
        UnmapKeepsChild(s, s1, virt, leaf, p, Index(virt, level));
      }
    }

    method Unmap(virt: Word, size: PageSize) returns (r: Result<UnmapError>)
      requires Valid()
      modifies this, pmm.Footprint()
      ensures Valid()
      ensures r == Err(UnmapNonCanonical) <==> !Canonical(virt)
      ensures r == Err(UnmapMisaligned) <==> Canonical(virt) && virt % size.Bytes() != 0
      ensures r.Ok? <==> Canonical(virt) && virt % size.Bytes() == 0 && MappedAt(old(At(Now(), virt)), size.Level())
      ensures r.Err? ==> Now() == old(Now())
      ensures r.Ok? ==> UnmapsPage(old(Now()), Now(), virt, size.Level(), Root)
      ensures old(Tidy(Now().m, tables)) ==> Tidy(Now().m, tables)
    {
      hide Shaped, Injective, Good, FreeSet, Present, PageFlag, Target, EmptyTable, SameOutside, Pmm.Valid, Pmm.Structured, Index, Canonical, SamePage, Walk;
      if !Canonical(virt) { return Err(UnmapNonCanonical); }
      if virt % size.Bytes() != 0 { return Err(UnmapMisaligned); }
      TopPath(virt);
      ghost var s := Now();
      r := UnmapAt(topLevel / FRAME_SIZE, TOP_LEVEL, virt, size.Level());
      if r.Ok? && Tidy(s.m, s.tables) { UnmapKeepsTidy(s, Now(), virt, size.Level()); }
    }

    // -------------------------------------------------------------- ranges

    /** All or nothing: on an error every page mapped so far is unmapped again. */
    method MapRange(virt: Word, phys: PAddr, pages: nat, flags: Word, size: PageSize)
      returns (r: Result<MapError>, ghost failed: nat, ghost mid: Snap)
      requires Valid() && Request(virt, phys, flags, size).Fits(PageAddress(virt, pages, size.Bytes()))
      modifies this, pmm.Footprint()
      ensures Valid()
      ensures r.Ok? ==> Covered(old(Now()), Now(), Request(virt, phys, flags, size), PageAddress(virt, pages, size.Bytes()))
                        && AllCanonical(virt, pages, size.Bytes()) && (pages > 0 ==> PageAligned(virt, phys, size))
      ensures r.Err? ==> Restored(old(Now()), Now()) && failed < pages
      ensures r.Err? ==> RangeRefused(old(Now()), mid, Request(virt, phys, flags, size), failed, r.error)
    {
      hide Sound, FreeSet, Present, PageFlag, Target, SameOutside, Pmm.Valid, Canonical, View, PageSize.Leaf, PageSize.Bytes, Progress, UnmapsPage, MapsPage, Undone, Tidy, SomeMapped, Blocked, Missing, Restored, Covered, AllCanonical, Extends;
      ghost var s0 := Now();
      failed, mid := 0, s0;
      var q := Request(virt, phys, flags, size);
      StepBounds(virt, 0, pages, size.Bytes());
      ProgressStart(s0, q);
      var stride := size.Bytes();
      for i := 0 to pages
        invariant Valid() && Progress(s0, Now(), q, virt, PageAddress(virt, i, stride)) && Extends(s0.tables, tables)
        invariant i > 0 ==> virt % stride == 0 && phys % stride == 0
        invariant AllCanonical(virt, i, stride)
      {
        var step := i * stride;
        StepBounds(virt, i, pages, stride);
        ghost var s := Now();
        r := Map(virt + step, phys + step, flags, size);
        if r.Err? {
          ProgressCovers(s0, s, q, virt + step);
          ProgressUndone(s0, s, Now(), q, virt, virt + step);
          RollBack(s0, q, i);
          return r, i, s;
        }
        if i == 0 { assert virt + step == virt && phys + step == phys; }
        LeafInPage(q, virt + step, virt + step);
        NextCanonical(virt, i, stride);
        ProgressMap(s0, s, Now(), q, virt + step);
      }
      ProgressCovers(s0, Now(), q, PageAddress(virt, pages, stride));
      return Ok, pages, Now();
    }

    /** The rollback loop: every `unmap` in it succeeds. */
    method RollBack(ghost s0: Snap, q: Request, pages: nat)
      requires Valid() && (pages > 0 ==> q.virt % q.size.Bytes() == 0)
      requires Progress(s0, Now(), q, q.virt, PageAddress(q.virt, pages, q.size.Bytes()))
      requires AllCanonical(q.virt, pages, q.size.Bytes())
      modifies this, pmm.Footprint()
      ensures Valid() && Restored(s0, Now())
    {
      hide Sound, FreeSet, Present, PageFlag, Target, SameOutside, Pmm.Valid, Canonical, View, PageSize.Leaf, PageSize.Bytes, Progress, UnmapsPage, MapsPage, Undone, Tidy, SomeMapped, Blocked, Missing, Restored, Covered, AllCanonical, Extends;
      var stride := q.size.Bytes();
      ghost var hi := PageAddress(q.virt, pages, stride);
      StepBounds(q.virt, 0, pages, stride);
      for j := 0 to pages
        invariant Valid() && Progress(s0, Now(), q, PageAddress(q.virt, j, stride), hi)
      {
        var back := j * stride;
        StepBounds(q.virt, j, pages, stride);
        ghost var s := Now();
        MultiplesKeepAlignment(q.virt, j, stride);
        CanonicalPage(q.virt, pages, stride, j);
        PageIsMapped(s0, s, q, q.virt + back, hi);
        var r := Unmap(q.virt + back, q.size);
        assert r.Ok?;
        ProgressUnmap(s0, s, Now(), q, q.virt + back, hi);
      }
      ProgressEnd(s0, Now(), q, hi);
    }

    /** Stops at the first error, with the pages before it unmapped. */
    method UnmapRange(virt: Word, pages: nat, size: PageSize) returns (r: Result<UnmapError>, ghost done: nat)
      requires Valid() && PageAddress(virt, pages, size.Bytes()) <= WORD_LIMIT
      modifies this, pmm.Footprint()
      ensures Valid() && done <= pages && Cleared(old(Now()), Now(), virt, PageAddress(virt, done, size.Bytes()))
      ensures r.Ok? <==> done == pages
      ensures r.Err? ==> PageAddress(virt, done, size.Bytes()) < WORD_LIMIT
                         && CannotUnmap(old(Now()), PageAddress(virt, done, size.Bytes()), size, r.error)
    {
      hide Sound, FreeSet, Present, PageFlag, Target, SameOutside, Pmm.Valid, Canonical, View, PageSize.Bytes, UnmapsPage, Tidy, Cleared;
      ghost var s0 := Now();
      var stride := size.Bytes();
      StepBounds(virt, 0, pages, stride);
      ClearedStart(s0, virt);
      for i := 0 to pages
        invariant Valid() && Cleared(s0, Now(), virt, PageAddress(virt, i, stride))
      {
        StepBounds(virt, i, pages, stride);
        ghost var s := Now();
        if Canonical(virt + i * stride) { ClearedAhead(s0, s, virt, virt + i * stride); }
        r := Unmap(virt + i * stride, size);
        if r.Err? { return r, i; }
        ClearedPage(s0, s, Now(), virt, virt + i * stride, size);
      }
      return Ok, pages;
    }
  }

  /** Why `unmap` refuses a page. */
  ghost predicate CannotUnmap(s: Snap, a: Word, size: PageSize, e: UnmapError) {
    && InRam(s.m, s.tables)
    && match e
       case UnmapNonCanonical => !Canonical(a)
       case UnmapMisaligned => Canonical(a) && a % size.Bytes() != 0
       case NotMapped => Canonical(a) && a % size.Bytes() == 0 && !MappedAt(At(s, a), size.Level())
  }

  /** Why `map` refuses a page. */
  ghost predicate Refused(s: Snap, virt: Word, phys: PAddr, size: PageSize, e: MapError) {
    && Root in s.tables
    && match e
       case MapNonCanonical => !Canonical(virt)
       case MapMisaligned => Canonical(virt) && !PageAligned(virt, phys, size)
       case AlreadyMapped => Canonical(virt) && PageAligned(virt, phys, size) && Conflict(s, virt, size)
       case OutOfMemory =>
         && Canonical(virt) && PageAligned(virt, phys, size) && !Conflict(s, virt, size)
         && |FreeSet(s.tags)| < TablesNeeded(s, virt, size)
  }

  /** The first `failed` pages could be mapped, giving `mid`, and there the next page is refused. */
  ghost predicate RangeRefused(s0: Snap, mid: Snap, q: Request, failed: nat, e: MapError) {
    var a, b := PageAddress(q.virt, failed, q.size.Bytes()), PageAddress(q.phys, failed, q.size.Bytes());
    a < WORD_LIMIT && Covered(s0, mid, q, a) && Refused(mid, a, b, q.size, e)
  }

  /** In tidy tables a range is refused as mapped only if one of its addresses was mapped before. */
  lemma RefusedBecauseMapped(s0: Snap, mid: Snap, q: Request, failed: nat)
    requires RangeRefused(s0, mid, q, failed, AlreadyMapped) && Tidy(s0.m, s0.tables)
    ensures SomeMapped(s0, PageAddress(q.virt, failed, q.size.Bytes()), q.size.Level())
  {
    hide Shaped, Injective, Good, FreeSet, View, Canonical, SameOutside, Pool, PageSize.Bytes, SamePage, Tidy, Request.HitFor, Unmapped, Blocked;
    var a := PageAddress(q.virt, failed, q.size.Bytes());
    TopPath(a);
    BlockedIffMapped(mid, a, TOP_LEVEL, q.size.Level());
    MappedBefore(s0, mid, q, a);
  }

  /** After `map_range(virt, phys, pages, flags, size)` every address `virt + k` of the range translates
      to `phys + k` with the requested flags. */
  lemma RangeTranslates(s0: Snap, s: Snap, q: Request, pages: nat, k: nat)
    requires Covered(s0, s, q, PageAddress(q.virt, pages, q.size.Bytes())) && AllCanonical(q.virt, pages, q.size.Bytes())
    requires PageAligned(q.virt, q.phys, q.size)
    requires k < pages * match q.size case Base => 0x1000 case Large => 0x20_0000 case Huge => 0x4000_0000
    ensures q.virt + k < WORD_LIMIT && Canonical(q.virt + k) && InRam(s.m, s.tables)
    ensures Translation(s, q.virt + k).Some? && Translation(s, q.virt + k).value.0 == q.phys + k
    ensures q.size.FlagsOf(Translation(s, q.virt + k).value.1, q.flags)
  {
    hide Shaped, Injective, Good, Pool, SameOutside, View, Present, FlagBits, PageSize.Leaf, PageSize.Bytes, Canonical, SamePage, Tidy, Unmapped, Request.LeafFor;
    var bytes := q.size.Bytes();
    var i, off := k / bytes, k % bytes;
    PageOfOffset(k, pages, bytes);
    var a, b := PageAddress(q.virt, i, bytes), PageAddress(q.phys, i, bytes);
    CanonicalPage(q.virt, pages, bytes, i);
    MultiplesKeepAlignment(q.virt, i, bytes);
    MultiplesKeepAlignment(q.phys, i, bytes);
    InPage(a, b, q.size, off);
    LeafInPage(q, a, a + off);
    assert At(s, a + off) == q.HitFor(a + off);
  }

  lemma PageOfOffset(k: nat, pages: nat, bytes: nat)
    requires bytes > 0 && k < pages * bytes
    ensures k / bytes < pages && k == k / bytes * bytes + k % bytes
  {
  }

  lemma CanonicalPage(start: Word, n: nat, stride: nat, i: nat)
    requires AllCanonical(start, n, stride) && i < n
    ensures PageAddress(start, i, stride) < WORD_LIMIT && Canonical(PageAddress(start, i, stride))
  {
    hide Canonical;
  }

  lemma StepBounds(start: nat, i: nat, n: nat, stride: nat)
    requires i <= n
    ensures PageAddress(start, i, stride) == start + i * stride
    ensures i < n ==> PageAddress(start, i + 1, stride) == start + i * stride + stride <= PageAddress(start, n, stride)
    ensures PageAddress(start, 0, stride) == start <= PageAddress(start, n, stride)
  {
    Distribute(i, 1, stride);
    Distribute(i, n - i, stride);
    if i < n { ProductAtLeast(n - i, stride); }
  }

  lemma {:induction false} MultiplesKeepAlignment(a: nat, i: nat, stride: nat)
    requires stride > 0
    ensures (a + i * stride) % stride == a % stride
    decreases i
  {
    if i > 0 {
      MultiplesKeepAlignment(a, i - 1, stride);
      Distribute(i - 1, 1, stride);
      AddModulus(a + (i - 1) * stride, stride);
    }
  }

  lemma AddModulus(x: nat, m: nat)
    requires m > 0
    ensures (x + m) % m == x % m
  {
    assert x + m == (x / m + 1) * m + x % m;
    RemainderUnique(x + m, m, x / m + 1, x % m);
  }

  lemma NotEmpty(f: Frame, i: nat)
    requires i < FRAME_WORDS && Present(f[i])
    ensures !EmptyTable(f)
  {
  }

  lemma ZeroedFrame(m0: seq<Frame>, m1: seq<Frame>, m2: seq<Frame>, free0: set<nat>, free1: set<nat>, c: nat)
    requires SameOutside(m0, m1, free1) && free1 == free0 - {c} && c in free0
    requires c < |m1| && m2 == m1[c := ZERO_FRAME]
    ensures SameOutside(m0, m2, free0) && EmptyTable(m2[c])
  {
  }

  lemma TableNotFree(s: Snap, p: Path)
    requires Sound(s) && p in s.tables
    ensures s.tables[p] !in FreeSet(s.tags)
  {
    hide FreeSet;
    assert s.tables[p] in s.tables.Values;
  }

  predicate PageAligned(virt: Word, phys: PAddr, size: PageSize) {
    virt % size.Bytes() == 0 && phys % size.Bytes() == 0
  }

  ghost predicate Conflict(s: Snap, virt: Word, size: PageSize)
    requires Root in s.tables
  {
    Blocked(s.m, s.tables[Root], TOP_LEVEL, virt, size.Level())
  }

  ghost function TablesNeeded(s: Snap, virt: Word, size: PageSize): nat
    requires Root in s.tables
  {
    Missing(s.m, s.tables[Root], TOP_LEVEL, virt, size.Level())
  }

  /** The walk ended at a leaf of exactly this level. */
  ghost predicate MappedAt(hit: Option<Hit>, level: nat) {
    hit.Some? && hit.value.level == level
  }

  lemma TopPath(virt: Word)
    ensures PathOf(virt, TOP_LEVEL) == Root
  {
  }

  lemma UndoneKeepsAll(s: Snap)
    requires Sound(s)
    ensures Undone(s, s)
  {
    UndoneSelf(s);
  }

  lemma MapTidiness(s: Snap, s': Snap, virt: Word, level: nat, entry: Word)
    requires MapsPage(s, s', virt, level, entry) || Undone(s, s')
    ensures Tidy(s.m, s.tables) ==> Tidy(s'.m, s'.tables)
  {
    hide MapsPage, Undone, Tidy;
    if Tidy(s.m, s.tables) {
      if Undone(s, s') { UndoneKeepsTidy(s, s'); } else { MapKeepsTidy(s, s', virt, level, entry); }
    }
  }

  lemma HoleIsNoTable(level: nat)
    ensures !Present(0) && !Inner(level, 0)
  {
  }

  lemma {:induction false} WalkBelow(m: seq<Frame>, t: nat, level: nat, v: Word)
    ensures Walk(m, t, level, v).Some? ==> Walk(m, t, level, v).value.level <= level
    decreases level
  {
    hide Present, PageFlag, Target, Index;
    if t < |m| && Inner(level, m[t][Index(v, level)]) {
      WalkBelow(m, Target(m[t][Index(v, level)]), level - 1, v);
    }
  }

  /** While a table is there, so is the one above it, in the frame it had. */
  lemma ParentStays(s: Snap, s1: Snap, virt: Word, level: nat)
    requires Sound(s) && Sound(s1) && Extends(s1.tables, s.tables) && 0 < level <= TOP_LEVEL
    requires PathOf(virt, level - 1) in s1.tables && PathOf(virt, level) in s.tables
    ensures PathOf(virt, level) in s1.tables && s1.tables[PathOf(virt, level)] == s.tables[PathOf(virt, level)]
    ensures PathOf(virt, level - 1) == Sub(PathOf(virt, level), Index(virt, level))
  {
    hide Injective, Good, FreeSet, Present, PageFlag, Target, Index;
    assert Attached(s1.m, s1.tables, PathOf(virt, level - 1));
  }
}

/** The kernel heap (kernel/src/mm/heap.rs): small objects from slabs, large ones from the frame
  allocator.
 */
module KernelHeap {
  import opened Alignment
  import opened BuddyTags
  import opened Memory
  import opened Links
  import opened FrameAllocator
  import opened Slabs
  import opened Layouts
  import opened HeapSpec

  class Heap {
    const pmm: Pmm
    const active: array<Word>
    const partial: array<Word>
    ghost var current: seq<Option<nat>>
    ghost var lists: seq<seq<nat>>
    ghost var bucketOf: map<nat, nat>
    ghost var frees: map<nat, seq<nat>>
    ghost var large: map<nat, nat>

    ghost function Now(): Holdings
      reads this, active, partial, pmm.Footprint()
    {
      Holdings(Store(pmm.ram.frames, active[..], partial[..], current, lists, bucketOf, frees), large, pmm.Tags())
    }

    ghost predicate Valid()
      reads this, active, partial, pmm.Footprint()
    {
      && pmm.Valid() && active.Length == partial.Length == NUM_BUCKETS
      && active != partial && active != pmm.freeLists && partial != pmm.freeLists
      && |current| == |lists| == NUM_BUCKETS && Held(Now(), pmm.hhdm) && pmm.totalFrames == |pmm.Tags()|
      && 0 < pmm.hhdm && Pointer(pmm.hhdm, pmm.totalFrames) <= WORD_LIMIT
    }

    constructor (pmm: Pmm)
      requires pmm.Valid()
      ensures Valid() && this.pmm == pmm && fresh(active) && fresh(partial)
      ensures bucketOf == map[] && large == map[] && frees == map[]
    {
      this.pmm := pmm;
      active := new Word[NUM_BUCKETS](_ => 0);
      partial := new Word[NUM_BUCKETS](_ => 0);
      current := seq(NUM_BUCKETS, _ => None);
      lists := seq(NUM_BUCKETS, _ => []);
      bucketOf, frees, large := map[], map[], map[];
      new;
      pmm.ValidSizes();
    }

    /** Takes the first free object of the active slab. */
    method PopFrom(f: nat, bucket: nat) returns (ptr: Word)
      requires Valid() && bucket < NUM_BUCKETS && current[bucket] == Some(f)
      requires f in bucketOf && f in frees && frees[f] != []
      modifies this, pmm.ram
      ensures Valid() && Taken(old(Now()), Now(), pmm.hhdm, bucket, f, old(frees)[f][0])
      ensures ptr == Pointer(pmm.hhdm, f) + old(frees)[f][0] > 0 && Now().tags == old(Now().tags)
    {
      hide Held, Taken, FreeSet, Pmm.Structured, Pmm.Valid;
      ghost var h := Now();
      PopReads(h, pmm.hhdm, bucket, f);
      PopTakes(h, pmm.hhdm, bucket, f);
      ptr := pmm.ram.frames[f][1];
      var off := ptr - Pointer(pmm.hhdm, f);
      var next := pmm.ram.frames[f][WordAt(off)];
      pmm.StoreOwned(f, 1, next);
      frees := frees[f := frees[f][1..]];
    }

    /** Forgets an exhausted active slab. */
    method DropExhausted(bucket: nat)
      requires Valid() && bucket < NUM_BUCKETS
      requires current[bucket].Some? ==> current[bucket].value in frees && frees[current[bucket].value] == []
      modifies this, active
      ensures Valid() && Rearranged(old(Now()), Now(), pmm.hhdm) && current == old(current)[bucket := None]
      ensures lists == old(lists) && active[bucket] == 0 && partial[..] == old(partial[..])
    {
      hide Held, Rearranged, FreeSet, Pmm.Structured, Pmm.Valid;
      DropRearranges(Now(), pmm.hhdm, bucket);
      active[bucket] := 0;
      current := current[bucket := None];
    }

    /** `take_partial`, and the slab becomes active. */
    method PromotePartial(bucket: nat) returns (f: nat)
      requires Valid() && bucket < NUM_BUCKETS && current[bucket] == None && lists[bucket] != []
      modifies this, active, partial, pmm.ram
      ensures Valid() && Rearranged(old(Now()), Now(), pmm.hhdm)
      ensures current[bucket] == Some(f) && f in bucketOf && f in frees && frees[f] != []
    {
      hide Held, Rearranged, FreeSet, Pmm.Structured, Pmm.Valid, Promoted;
      ghost var h := Now();
      PromoteReads(h, pmm.hhdm, bucket);
      PromoteRearranges(h, pmm.hhdm, bucket);
      var slab := partial[bucket];
      f := pmm.BlockToFrame(slab);
      partial[bucket] := pmm.ram.frames[f][0];
      pmm.StoreOwned(f, 0, 0);
      active[bucket] := slab;
      current, lists := current[bucket := Some(f)], lists[bucket := lists[bucket][1..]];
    }

    /** `refill`: a frame from the allocator becomes the active slab, all its objects free. */
    method Refill(bucket: nat) returns (r: Option<nat>)
      requires Valid() && bucket < NUM_BUCKETS && current[bucket] == None
      modifies this, active, pmm.Footprint()
      ensures Valid()
      ensures r.None? <==> FreeSet(old(Now().tags)) == {}
      ensures r.None? ==> Now() == old(Now())
      ensures r.Some? ==> Grown(old(Now()), Now(), pmm.hhdm, bucket, r.value) && current[bucket] == Some(r.value)
                          && r.value !in old(bucketOf) && r.value in bucketOf && r.value in frees && frees[r.value] != []
    {
      hide Held, Grown, FreeSet, FreeList, Good, Pmm.Structured, Pmm.Valid, SameOutside, AllObjects, ObjCount, Added;
      ghost var h := Now();
      var phys := pmm.AllocFrame();
      if phys.None? { return None; }
      var f := phys.value / FRAME_SIZE;
      ghost var m := pmm.ram.frames;
      pmm.ValidSizes();
      PointerFits(pmm.hhdm, f, pmm.totalFrames);
      ThreadObjects(pmm, f, bucket);
      RefillGrows(h, pmm.hhdm, bucket, f, m, pmm.ram.frames, pmm.Tags());
      active[bucket] := Pointer(pmm.hhdm, f);
      current := current[bucket := Some(f)];
      bucketOf, frees := bucketOf[f := bucket], frees[f := AllObjects(bucket)];
      return Some(f);
    }

    /** Null exactly when every slab of the bucket is full and no frame is free; otherwise an object
        that was free. */
    method AllocSmall(bucket: nat) returns (ptr: Word, ghost f: nat, ghost off: nat)
      requires Valid() && bucket < NUM_BUCKETS
      modifies this, active, partial, pmm.Footprint()
      ensures Valid()
      ensures ptr == 0 <==> FreeSet(old(Now().tags)) == {} && BucketFull(old(Now().store), bucket)
      ensures ptr == 0 ==> Rearranged(old(Now()), Now(), pmm.hhdm)
      ensures ptr != 0 ==> Taken(old(Now()), Now(), pmm.hhdm, bucket, f, off) && ptr == Pointer(pmm.hhdm, f) + off
      ensures ptr != 0 ==> (f in old(bucketOf) <==> !BucketFull(old(Now().store), bucket))
    {
      hide Held, Grown, Taken, Rearranged, FreeSet, Pmm.Structured, Pmm.Valid, BucketFull;
      ghost var h := Now();
      f, off := 0, 0;
      BucketReads(h, pmm.hhdm, bucket);
      if active[bucket] != 0 {
        var slab := pmm.BlockToFrame(active[bucket]);
        if pmm.ram.frames[slab][1] != 0 {
          f, off := slab, frees[slab][0];
          ptr := PopFrom(slab, bucket);
          return ptr, f, off;
        }
      }
      DropExhausted(bucket);
      ghost var h1 := Now();
      BucketReads(h1, pmm.hhdm, bucket);
      RearrangedFull(h, h1, pmm.hhdm, bucket);
      if partial[bucket] != 0 {
        var slab := PromotePartial(bucket);
        ghost var h2 := Now();
        RearrangedFull(h1, h2, pmm.hhdm, bucket);
        f, off := slab, frees[slab][0];
        ptr := PopFrom(slab, bucket);
        RearrangeThenTake(h1, h2, Now(), pmm.hhdm, bucket, f, off);
        RearrangeThenTake(h, h1, Now(), pmm.hhdm, bucket, f, off);
        return ptr, f, off;
      }
      var slab := Refill(bucket);
      if slab.None? { return 0, 0, 0; }
      ghost var h2 := Now();
      f, off := slab.value, frees[slab.value][0];
      ptr := PopFrom(slab.value, bucket);
      GrowThenTake(h1, h2, Now(), pmm.hhdm, bucket, f, off);
      RearrangeThenTake(h, h1, Now(), pmm.hhdm, bucket, f, off);
    }

    /** Puts an object back; a slab that was full and is not active goes on the partial list. */
    method DeallocSmall(bucket: nat, f: nat, ptr: Word, ghost off: nat)
      requires Valid() && bucket < NUM_BUCKETS && LiveObject(Now().store, bucket, f, off)
      requires ptr == Pointer(pmm.hhdm, f) + off
      modifies this, partial, pmm.ram
      ensures Valid() && Returned(old(Now()), Now(), pmm.hhdm, bucket, f, off)
    {
      hide Held, Returned, FreeSet, Pmm.Structured, Pmm.Valid, IsObject, ObjSize, Demoted;
      ghost var h := Now();
      ReturnReads(h, pmm.hhdm, bucket, f, off);
      BucketReads(h, pmm.hhdm, bucket);
      var slab := Pointer(pmm.hhdm, f);
      var free := pmm.ram.frames[f][1];
      pmm.StoreOwned(f, WordAt(ptr - slab), free);
      pmm.StoreOwned(f, 1, ptr);
      frees := frees[f := [off] + frees[f]];
      assert pmm.ram.frames == h.store.m[f := PushedFrameOf(h, pmm.hhdm, f, off)];
      if active[bucket] == slab || free != 0 {
        ReturnPlain(h, pmm.hhdm, bucket, f, off);
        return;
      }
      ReturnDemotes(h, pmm.hhdm, bucket, f, off);
      pmm.StoreOwned(f, 0, partial[bucket]);
      partial[bucket] := slab;
      lists := lists[bucket := [f] + lists[bucket]];
      assert pmm.ram.frames == h.store.m[f := PushedFrameOf(h, pmm.hhdm, f, off)[0 := h.store.partial[bucket]]];
    }

    // -------------------------------------------------------------- large blocks

    /** Null exactly when the layout is too large or no aligned run is free. */
    method AllocLarge(layout: Layout) returns (ptr: Word, ghost f: nat)
      requires Valid()
      modifies this, pmm.Footprint()
      ensures Valid()
      ensures ptr == 0 <==> NoBlock(old(Now()), layout)
      ensures ptr == 0 ==> Now() == old(Now())
      ensures ptr != 0 ==> OrderForLarge(layout).Some? && ptr == Pointer(pmm.hhdm, f)
                           && LargeTaken(old(Now()), Now(), f, OrderForLarge(layout).value)
    {
      hide Held, FreeSet, Good, Pmm.Structured, OrderForLarge, Run, SameOutside, Pow2, Down, NoBlock;
      ghost var h := Now();
      NoBlockIff(h, layout);
      f := 0;
      var order := OrderForLarge(layout);
      if order.None? { return 0, f; }
      var phys := pmm.AllocPages(order.value);
      if phys.None? { return 0, f; }
      var frame := phys.value / FRAME_SIZE;
      f := frame;
      FreeRunIsNew(h, pmm.hhdm, f, order.value);
      large := large[f := order.value];
      LargeTakenHeld(h, Now(), pmm.hhdm, f, order.value);
      RunPointer(pmm.hhdm, f, order.value, pmm.totalFrames);
      return Pointer(pmm.hhdm, frame), f;
    }

    method DeallocLarge(ptr: Word, layout: Layout)
      requires Valid() && BucketFor(layout) == None && Live(Now(), pmm.hhdm, ptr, layout)
      modifies this, pmm.Footprint()
      ensures Valid()
      ensures LargeReturned(old(Now()), Now(), (ptr - pmm.hhdm) / FRAME_SIZE, OrderForLarge(layout).value)
    {
      hide Held, FreeSet, Good, Pmm.Structured, Pmm.Valid, OrderForLarge, BucketFor, Run, SameOutside, Pow2, Down;
      ghost var h := Now();
      var order := OrderForLarge(layout);
      var phys := ptr - pmm.hhdm;
      LargeBlock(h, pmm.hhdm, phys / FRAME_SIZE);
      pmm.FreePages(phys, order.value);
      pmm.ValidSizes();
      large := large - {phys / FRAME_SIZE};
      LargeReturnedHeld(h, Now(), pmm.hhdm, phys / FRAME_SIZE, order.value);
    }

    // -------------------------------------------------------------- GlobalAlloc

    /** `alloc`: null exactly when memory is exhausted for the layout; otherwise memory nobody holds,
        large and aligned enough. */
    method Alloc(layout: Layout) returns (ptr: Word)
      requires Valid() && layout.Valid()
      modifies this, active, partial, pmm.Footprint()
      ensures Valid() && HeapEvolves(old(Now()), Now()) && ContentsKept(old(Now()), Now())
      ensures OthersLive(old(Now()), Now(), pmm.hhdm, ptr)
      ensures ptr == 0 <==> Exhausted(old(Now()), layout)
      ensures ptr != 0 ==> Live(Now(), pmm.hhdm, ptr, layout) && forall l: Layout :: !Live(old(Now()), pmm.hhdm, ptr, l)
      ensures ptr != 0 ==> layout.size <= Capacity(layout) && Spends(old(Now()), Now(), layout)
      ensures ptr != 0 && Aligned(pmm.hhdm, HHDM_SHIFT) ==> ptr % layout.align == 0
    {
      hide Held, FreeSet, Taken, Rearranged, LargeTaken, HeapEvolves, ContentsKept, BucketFor, OrderForLarge, Live, OthersLive, Pmm.Valid, Log2, Down, Pow2, ObjSize, AllFull, NoBlock, Spends;
      ghost var h := Now();
      var bucket := BucketFor(layout);
      if bucket.None? {
        ptr := AllocLargeFor(layout);
        return ptr;
      }
      ghost var f, off;
      NoObjectIff(h, layout);
      ptr, f, off := AllocSmall(bucket.value);
      if ptr == 0 {
        RearrangedPool(h, Now(), pmm.hhdm);
        RearrangedKeeps(h, Now(), pmm.hhdm);
        RearrangedLive(h, Now(), pmm.hhdm, 0);
      } else {
        TakenPool(h, Now(), pmm.hhdm, bucket.value, f, off);
        TakenKeeps(h, Now(), pmm.hhdm, bucket.value, f, off);
        TakenLive(h, Now(), pmm.hhdm, bucket.value, f, off, ptr);
        TakenSpends(h, Now(), pmm.hhdm, layout, f, off);
        BucketFits(layout);
        if Aligned(pmm.hhdm, HHDM_SHIFT) {
          ObjectAligned(pmm.hhdm, f, off, bucket.value);
          AlignedTo(ptr, layout, bucket.value + MIN_BUCKET_SHIFT);
        }
      }
    }

    method AllocLargeFor(layout: Layout) returns (ptr: Word)
      requires Valid() && layout.Valid() && BucketFor(layout) == None
      modifies this, pmm.Footprint()
      ensures Valid() && HeapEvolves(old(Now()), Now()) && ContentsKept(old(Now()), Now())
      ensures OthersLive(old(Now()), Now(), pmm.hhdm, ptr)
      ensures ptr == 0 <==> Exhausted(old(Now()), layout)
      ensures ptr != 0 ==> Live(Now(), pmm.hhdm, ptr, layout) && forall l: Layout :: !Live(old(Now()), pmm.hhdm, ptr, l)
      ensures ptr != 0 ==> layout.size <= Capacity(layout) && Spends(old(Now()), Now(), layout)
      ensures ptr != 0 && Aligned(pmm.hhdm, HHDM_SHIFT) ==> ptr % layout.align == 0
    {
      hide Held, FreeSet, HeapEvolves, ContentsKept, BucketFor, OrderForLarge, Live, OthersLive, Pmm.Valid, Log2, Down, Pow2, Run, Becomes, SameOutside, NoObject, NoBlock, Spends;
      ghost var h := Now();
      ghost var f;
      BucketFits(layout);
      ptr, f := AllocLarge(layout);
      if ptr == 0 {
        NothingChanged(h, pmm.hhdm);
      } else {
        var order := OrderForLarge(layout).value;
        LargeTakenPool(h, Now(), f, order);
        LargeTakenHeld(h, Now(), pmm.hhdm, f, order);
        LargeTakenLive(h, Now(), pmm.hhdm, f, order, ptr);
        LargeTakenSpends(h, Now(), layout, f);
        OrderFits(layout);
        if Aligned(pmm.hhdm, HHDM_SHIFT) {
          FramePointerAligned(pmm.hhdm, f, order);
          AlignedTo(ptr, layout, order + FRAME_SHIFT);
        }
      }
    }

    /** `dealloc` of a live pointer with the layout it was handed out for. */
    method Dealloc(ptr: Word, layout: Layout)
      requires Valid() && pmm.hhdm % FRAME_SIZE == 0 && (ptr == 0 || Live(Now(), pmm.hhdm, ptr, layout))
      modifies this, partial, pmm.Footprint()
      ensures Valid() && HeapEvolves(old(Now()), Now()) && ContentsKept(old(Now()), Now())
      ensures OthersLive(old(Now()), Now(), pmm.hhdm, ptr)
      ensures forall l: Layout :: !Live(Now(), pmm.hhdm, ptr, l)
    {
      hide Held, FreeSet, Returned, LargeReturned, HeapEvolves, ContentsKept, BucketFor, OrderForLarge, OthersLive, Pmm.Valid, LiveObject;
      ghost var h := Now();
      if ptr == 0 {
        NothingChanged(h, pmm.hhdm);
        return;
      }
      var bucket := BucketFor(layout);
      if bucket.None? {
        var f := (ptr - pmm.hhdm) / FRAME_SIZE;
        DeallocLarge(ptr, layout);
        LargeReturnedPool(h, Now(), pmm.hhdm, f, OrderForLarge(layout).value);
        LargeReturnedHeld(h, Now(), pmm.hhdm, f, OrderForLarge(layout).value);
        LargeReturnedLive(h, Now(), pmm.hhdm, f, OrderForLarge(layout).value, ptr);
        return;
      }
      MaskFindsSlab(pmm.hhdm, ptr);
      var f := pmm.BlockToFrame(ptr - ptr % FRAME_SIZE);
      ghost var off := (ptr - pmm.hhdm) % FRAME_SIZE;
      DeallocSmall(bucket.value, f, ptr, off);
      ReturnedPool(h, Now(), pmm.hhdm, bucket.value, f, off);
      ReturnedKeeps(h, Now(), pmm.hhdm, bucket.value, f, off);
      ReturnedLive(h, Now(), pmm.hhdm, bucket.value, f, off, ptr);
    }
  }

  /** No slab with the smallest objects that suit the layout has a free one. */
  ghost predicate AllFull(s: Store, layout: Layout) {
    forall f :: f in s.bucketOf && f in s.frees && s.bucketOf[f] < NUM_BUCKETS ==>
      LeastObject(ObjSize(s.bucketOf[f]), layout) ==> s.frees[f] == []
  }

  /** What a successful allocation costs in frames: for a small layout one if every slab for it is full
      and otherwise none, for a large one what it reserves. */
  ghost predicate Spends(h: Holdings, h': Holdings, layout: Layout) {
    if !Suits(1024, layout) then |FreeSet(h'.tags)| * FRAME_SIZE + Capacity(layout) == |FreeSet(h.tags)| * FRAME_SIZE
    else if AllFull(h.store, layout) then |FreeSet(h'.tags)| + 1 == |FreeSet(h.tags)|
    else h'.tags == h.tags
  }

  lemma TakenSpends(h: Holdings, h': Holdings, hhdm: nat, layout: Layout, f: nat, off: nat)
    requires BucketFor(layout).Some? && Taken(h, h', hhdm, BucketFor(layout).value, f, off)
    requires f in h.store.bucketOf <==> !BucketFull(h.store, BucketFor(layout).value)
    ensures Spends(h, h', layout)
  {
    hide BucketFor, FreeSet, Held, Suits, AllFull, ContentsKept, IsObject, SameOutside, Good;
    NoObjectIff(h, layout);
  }

  lemma LargeTakenSpends(h: Holdings, h': Holdings, layout: Layout, f: nat)
    requires BucketFor(layout) == None && OrderForLarge(layout).Some? && LargeTaken(h, h', f, OrderForLarge(layout).value)
    ensures Spends(h, h', layout)
  {
    hide BucketFor, OrderForLarge, FreeSet, Suits, SameOutside, Good, Pow2, Interval;
    BucketFits(layout);
    var o := OrderForLarge(layout).value;
    IntervalSize(f, f + Pow2(o));
    assert |FreeSet(h.tags) - Run(f, o)| == |FreeSet(h.tags)| - |Run(f, o)|;
  }

  /** No frame is free, and no slab with the smallest objects that suit the layout has a free one. */
  ghost predicate NoObject(h: Holdings, layout: Layout) {
    FreeSet(h.tags) == {} && AllFull(h.store, layout)
  }

  /** The layout is larger than 8 MiB, or no aligned run of the smallest order that suits it is free. */
  ghost predicate NoBlock(h: Holdings, layout: Layout) {
    !Suits(0x80_0000, layout) || forall o: nat :: LeastOrder(o, layout) ==> NoRun(FreeSet(h.tags), o)
  }

  /** No memory for this layout: up to 1024 bytes it is served by an object, beyond by a block. */
  ghost predicate Exhausted(h: Holdings, layout: Layout) {
    if Suits(1024, layout) then NoObject(h, layout) else NoBlock(h, layout)
  }

  lemma NoObjectIff(h: Holdings, layout: Layout)
    requires BucketFor(layout).Some?
    ensures Suits(1024, layout) && (AllFull(h.store, layout) <==> BucketFull(h.store, BucketFor(layout).value))
  {
    hide BucketFor, FreeSet, LeastObject, Suits, ObjSize;
    BucketFits(layout);
    var b := BucketFor(layout).value;
    forall f | f in h.store.bucketOf && h.store.bucketOf[f] < NUM_BUCKETS
      ensures LeastObject(ObjSize(h.store.bucketOf[f]), layout) <==> h.store.bucketOf[f] == b
    {
      if LeastObject(ObjSize(h.store.bucketOf[f]), layout) { LeastObjectUnique(layout, h.store.bucketOf[f], b); }
    }
  }

  lemma NoBlockIff(h: Holdings, layout: Layout)
    ensures NoBlock(h, layout) <==>
              OrderForLarge(layout) == None || NoRun(FreeSet(h.tags), OrderForLarge(layout).value)
  {
    hide OrderForLarge, FreeSet, LeastOrder, Suits, NoRun;
    OrderFits(layout);
    if OrderForLarge(layout).Some? {
      forall o: nat | LeastOrder(o, layout) ensures o == OrderForLarge(layout).value {
        LeastOrderUnique(layout, o, OrderForLarge(layout).value);
      }
    }
  }

  lemma AlignedTo(ptr: nat, layout: Layout, k: nat)
    requires layout.Valid() && Aligned(ptr, k) && Log2(layout.align) <= k
    ensures ptr % layout.align == 0
  {
    hide Down, Pow2, Log2;
    AlignedSmaller(ptr, Log2(layout.align), k);
    DownIsRemainder(ptr, Log2(layout.align));
  }

  lemma NothingChanged(h: Holdings, hhdm: nat)
    requires 0 < hhdm
    ensures HeapEvolves(h, h) && ContentsKept(h, h) && OthersLive(h, h, hhdm, 0)
    ensures forall l: Layout :: !Live(h, hhdm, 0, l)
  {
    hide BucketFor, OrderForLarge, LiveObject, HeapPool;
    SameOutsideSelf(h.store.m, HeapPool(h));
  }

  lemma RearrangedLive(h: Holdings, h': Holdings, hhdm: nat, ptr: Word)
    requires Rearranged(h, h', hhdm)
    ensures OthersLive(h, h', hhdm, ptr)
  {
    hide Held, BucketFor, OrderForLarge;
  }

  lemma TakenKeeps(h: Holdings, h': Holdings, hhdm: nat, b: nat, f: nat, off: nat)
    requires Taken(h, h', hhdm, b, f, off)
    ensures ContentsKept(h, h') && IsObject(off, b)
  {
  }

  lemma ReturnedKeeps(h: Holdings, h': Holdings, hhdm: nat, b: nat, f: nat, off: nat)
    requires Returned(h, h', hhdm, b, f, off)
    ensures ContentsKept(h, h')
  {
  }

  /** `ptr & SLAB_MASK` is the slab that holds `ptr`. */
  lemma MaskFindsSlab(hhdm: nat, ptr: nat)
    requires hhdm % FRAME_SIZE == 0 && hhdm <= ptr
    ensures hhdm <= ptr - ptr % FRAME_SIZE && (ptr - ptr % FRAME_SIZE - hhdm) / FRAME_SIZE == (ptr - hhdm) / FRAME_SIZE
    ensures ptr == Pointer(hhdm, (ptr - hhdm) / FRAME_SIZE) + (ptr - hhdm) % FRAME_SIZE
  {
  }

  ghost predicate NoRun(free: set<nat>, o: nat) {
    forall f: nat :: Aligned(f, o) ==> !(Run(f, o) <= free)
  }

  /** A free run overlaps no large block. */
  lemma FreeRunIsNew(h: Holdings, hhdm: nat, f: nat, o: nat)
    requires Held(h, hhdm) && Run(f, o) <= FreeSet(h.tags)
    ensures f !in h.large
  {
    hide Good, FreeSet, StoreOk, Pow2, Interval;
    assert f in Run(f, o);
    assert f in h.large ==> f in Run(f, h.large[f]) && LargeOk(h, f);
  }

  lemma RunPointer(hhdm: nat, f: nat, o: nat, total: nat)
    requires f + Pow2(o) <= total && Pointer(hhdm, total) <= WORD_LIMIT
    ensures Pointer(hhdm, f) < WORD_LIMIT
  {
    hide Pow2;
  }

  lemma LargeBlock(h: Holdings, hhdm: nat, f: nat)
    requires Held(h, hhdm) && f in h.large
    ensures LargeOk(h, f)
  {
    hide StoreOk, Good, FreeSet;
  }

  // ---------------------------------------------------------------- returning an object

  lemma ReturnReads(h: Holdings, hhdm: nat, b: nat, f: nat, off: nat)
    requires Held(h, hhdm) && b < NUM_BUCKETS && LiveObject(h.store, b, f, off)
    ensures f < |h.store.m| && f !in FreeSet(h.tags) && 2 <= WordAt(off) < FRAME_WORDS
    ensures Pointer(hhdm, f) + off < WORD_LIMIT && Pointer(hhdm, f) < WORD_LIMIT
    ensures h.store.m[f][1] != 0 <==> h.store.frees[f] != []
    ensures |h.store.partial| == |h.store.lists| == |h.store.active| == |h.store.current| == NUM_BUCKETS
    ensures h.store.active[b] == Pointer(hhdm, f) <==> h.store.current[b] == Some(f)
  {
    hide Good, FreeSet, ObjSize, Placed, LargeOk, Run, PartialOk, WordAt, IsObject, FreeList, Pointer;
    assert SlabOk(h.store, hhdm, f) && ActiveOk(h.store, hhdm, b);
    HeaderReads(h.store, hhdm, b, f);
    ObjectWords(off, off, b);
    ObjectBounds(off, b);
  }

  /** The header's free pointer is null iff no object is free, and the active pointer tells slabs apart. */
  lemma HeaderReads(s: Store, hhdm: nat, b: nat, f: nat)
    requires b < |s.current| && b < |s.active| && b < |s.lists| && ActiveOk(s, hhdm, b)
    requires 0 < hhdm && f in s.bucketOf && f in s.frees && SlabOk(s, hhdm, f)
    ensures s.m[f][1] != 0 <==> s.frees[f] != []
    ensures s.active[b] == Pointer(hhdm, f) <==> s.current[b] == Some(f)
  {
    hide WordAt, IsObject, ObjSize;
  }

  /** The slab's frame with the object at `off` in front of its free list. */
  ghost function PushedFrameOf(h: Holdings, hhdm: nat, f: nat, off: nat): Frame
    requires f < |h.store.m| && WordAt(off) < FRAME_WORDS && Pointer(hhdm, f) + off < WORD_LIMIT
  {
    h.store.m[f][WordAt(off) := h.store.m[f][1]][1 := Pointer(hhdm, f) + off]
  }

  lemma ReturnPlain(h: Holdings, hhdm: nat, b: nat, f: nat, off: nat)
    requires Held(h, hhdm) && b < NUM_BUCKETS && LiveObject(h.store, b, f, off)
    requires f < |h.store.m| && 2 <= WordAt(off) < FRAME_WORDS && Pointer(hhdm, f) + off < WORD_LIMIT
    requires |h.store.current| == NUM_BUCKETS && (h.store.current[b] == Some(f) || h.store.frees[f] != [])
    ensures var h' := h.(store := h.store.(m := h.store.m[f := PushedFrameOf(h, hhdm, f, off)],
                                           frees := h.store.frees[f := [off] + h.store.frees[f]]));
            Returned(h, h', hhdm, b, f, off) && Held(h', hhdm)
  {
    hide Good, FreeSet, ObjSize, IsObject, LiveKept, PartialOk, ActiveOk, LargeOk, Run, ContentsKept, NextObject, WordAt;
    assert SlabOk(h.store, hhdm, f) && Placed(h.store, f);
    var frame, list := PushedFrameOf(h, hhdm, f, off), [off] + h.store.frees[f];
    PushObject(h.store.m[f], Pointer(hhdm, f), h.store.frees[f], b, off);
    ChangeSlab(h.store, hhdm, f, frame, list);
    var h' := h.(store := h.store.(m := h.store.m[f := frame], frees := h.store.frees[f := list]));
    PopHeld(h, h', hhdm, f, b);
  }

  lemma ReturnDemotes(h: Holdings, hhdm: nat, b: nat, f: nat, off: nat)
    requires Held(h, hhdm) && b < NUM_BUCKETS && LiveObject(h.store, b, f, off)
    requires f < |h.store.m| && 2 <= WordAt(off) < FRAME_WORDS && Pointer(hhdm, f) + off < WORD_LIMIT
    requires |h.store.current| == |h.store.partial| == |h.store.lists| == NUM_BUCKETS
    requires h.store.current[b] != Some(f) && h.store.frees[f] == []
    ensures var frame := PushedFrameOf(h, hhdm, f, off)[0 := h.store.partial[b]];
            var h' := h.(store := h.store.(m := h.store.m[f := frame], partial := h.store.partial[b := Pointer(hhdm, f)],
                                           lists := h.store.lists[b := [f] + h.store.lists[b]],
                                           frees := h.store.frees[f := [off] + h.store.frees[f]]));
            Returned(h, h', hhdm, b, f, off) && Held(h', hhdm)
  {
    hide Good, FreeSet, ObjSize, IsObject, PartialOk, ActiveOk, LargeOk, Run, ContentsKept, NextObject, WordAt, FreeList, LiveKept;
    assert SlabOk(h.store, hhdm, f);
    var frame0, list := PushedFrameOf(h, hhdm, f, off), [off] + h.store.frees[f];
    var frame := frame0[0 := h.store.partial[b]];
    PushObject(h.store.m[f], Pointer(hhdm, f), h.store.frees[f], b, off);
    HeaderFree(frame0, frame, Pointer(hhdm, f), list, b);
    HeaderIsNoObject(frame0, frame, list, list, b);
    LiveKeptTrans(h.store.m[f], frame0, frame, h.store.frees[f], list, list, b);
    Demote(h.store, hhdm, f, frame, list);
    var h' := h.(store := Demoted(h.store, hhdm, f, frame, list));
    PopHeld(h, h', hhdm, f, b);
  }

  ghost predicate BucketFull(s: Store, b: nat) {
    forall f :: f in s.bucketOf && f in s.frees && s.bucketOf[f] == b ==> s.frees[f] == []
  }

  lemma RearrangedFull(h: Holdings, h': Holdings, hhdm: nat, b: nat)
    requires Rearranged(h, h', hhdm)
    ensures BucketFull(h'.store, b) == BucketFull(h.store, b) && h'.tags == h.tags
    ensures h'.store.bucketOf == h.store.bucketOf
  {
    hide Held;
  }

  /** What the heap's pointers say about a bucket. */
  lemma BucketReads(h: Holdings, hhdm: nat, b: nat)
    requires Held(h, hhdm) && b < NUM_BUCKETS
    requires |h.store.current| == |h.store.active| == |h.store.partial| == |h.store.lists| == NUM_BUCKETS
    ensures h.store.active[b] != 0 <==> h.store.current[b].Some?
    ensures h.store.current[b].Some? ==>
              var f := h.store.current[b].value;
              && h.store.active[b] == Pointer(hhdm, f) && f in h.store.frees && f in h.store.bucketOf && f < |h.store.m|
              && h.store.bucketOf[f] == b && (h.store.m[f][1] != 0 <==> h.store.frees[f] != [])
    ensures h.store.partial[b] != 0 <==> h.store.lists[b] != []
    ensures BucketFull(h.store, b) <==>
              h.store.lists[b] == [] && (h.store.current[b].Some? ==> h.store.frees[h.store.current[b].value] == [])
  {
    hide Good, FreeSet, LargeOk, Run, ObjSize, IsObject;
    assert ActiveOk(h.store, hhdm, b) && PartialOk(h.store, hhdm, b);
    if h.store.current[b].Some? { assert SlabOk(h.store, hhdm, h.store.current[b].value); }
    if h.store.lists[b] != [] { HeadOfList(h.store, hhdm, b); }
    forall f | f in h.store.bucketOf && h.store.bucketOf[f] == b ensures Placed(h.store, f) { }
  }

  /** The loop of `refill`: threads the objects from the last to the first, then the header. */
  method ThreadObjects(pmm: Pmm, f: nat, bucket: nat)
    requires pmm.Valid() && f < |pmm.ram.frames| && f !in pmm.Free() && bucket < NUM_BUCKETS
    requires Pointer(pmm.hhdm, f) + FRAME_SIZE <= WORD_LIMIT
    modifies pmm.ram
    ensures pmm.Valid() && |pmm.ram.frames| == |old(pmm.ram.frames)|
    ensures pmm.ram.frames == old(pmm.ram.frames)[f := pmm.ram.frames[f]]
    ensures FreeList(pmm.ram.frames[f], Pointer(pmm.hhdm, f), AllObjects(bucket), bucket)
  {
    hide FreeSet, Pmm.Structured, Pmm.Valid, ObjSize, IsObject, Objects, ObjCount;
    var base := Pointer(pmm.hhdm, f);
    var objSize := ObjSize(bucket);
    var count := ObjCount(bucket);
    ghost var all := AllObjects(bucket);
    AllObjectsAreObjects(bucket);
    var head: Word := 0;
    for i := count downto 0
      invariant pmm.Valid() && |pmm.ram.frames| == |old(pmm.ram.frames)|
      invariant pmm.ram.frames == old(pmm.ram.frames)[f := pmm.ram.frames[f]]
      invariant head == NextObject(base, all, i)
      invariant Threaded(pmm.ram.frames[f], base, bucket, i)
    {
      ObjectsAreMultiples(bucket, i);
      ObjectWords((i + 1) * objSize, (i + 1) * objSize, bucket);
      ObjectBounds((i + 1) * objSize, bucket);
      var off := (i + 1) * objSize;
      ThreadStep(pmm.ram.frames[f], base, bucket, i, head);
      pmm.StoreOwned(f, WordAt(off), head);
      head := base + off;
    }
    ThreadHeader(pmm.ram.frames[f], base, bucket, head);
    pmm.StoreOwned(f, 0, 0);
    pmm.StoreOwned(f, 1, head);
  }

  /** The objects from the i-th on are threaded. */
  ghost predicate Threaded(frame: Frame, base: nat, b: nat, i: nat)
    requires b < NUM_BUCKETS
  {
    forall k: nat :: i <= k < ObjCount(b) ==> ThreadedAt(frame, base, b, k)
  }

  ghost predicate ThreadedAt(frame: Frame, base: nat, b: nat, k: nat)
    requires b < NUM_BUCKETS && k < ObjCount(b)
  {
    var w := WordAt(AllObjects(b)[k]);
    2 <= w < FRAME_WORDS && frame[w] == NextObject(base, AllObjects(b), k + 1)
  }

  lemma ObjectBounds(off: nat, b: nat)
    requires b < NUM_BUCKETS && IsObject(off, b)
    ensures 0 < off < FRAME_SIZE
  {
  }

  lemma ThreadStep(frame: Frame, base: nat, b: nat, i: nat, head: Word)
    requires b < NUM_BUCKETS && i < ObjCount(b) && Threaded(frame, base, b, i + 1)
    requires head == NextObject(base, AllObjects(b), i + 1) && 2 <= WordAt((i + 1) * ObjSize(b)) < FRAME_WORDS
    ensures Threaded(frame[WordAt((i + 1) * ObjSize(b)) := head], base, b, i)
  {
    hide ObjSize, ObjCount, IsObject, NextObject, WordAt;
    var all, off := AllObjects(b), (i + 1) * ObjSize(b);
    var frame' := frame[WordAt(off) := head];
    AllObjectsAreObjects(b);
    forall k: nat | i <= k < ObjCount(b) ensures ThreadedAt(frame', base, b, k) {
      if k > i {
        assert ThreadedAt(frame, base, b, k);
        ObjectWords(all[k], all[i], b);
      }
    }
  }

  lemma ThreadHeader(frame: Frame, base: nat, b: nat, head: Word)
    requires b < NUM_BUCKETS && Threaded(frame, base, b, 0) && head == NextObject(base, AllObjects(b), 0)
    ensures FreeList(frame[0 := 0][1 := head], base, AllObjects(b), b)
  {
    hide ObjSize, ObjCount, IsObject, WordAt, AllObjects, NextObject;
    AllObjectsAreObjects(b);
    var all, frame' := AllObjects(b), frame[0 := 0][1 := head];
    forall k: nat | k < |all| ensures 2 <= WordAt(all[k]) < FRAME_WORDS && frame'[WordAt(all[k])] == NextObject(base, all, k + 1) {
      assert ThreadedAt(frame, base, b, k);
    }
  }

  lemma PointerFits(hhdm: nat, f: nat, total: nat)
    requires f < total && Pointer(hhdm, total) <= WORD_LIMIT
    ensures Pointer(hhdm, f) + FRAME_SIZE <= WORD_LIMIT
  {
  }

  lemma RefillGrows(h: Holdings, hhdm: nat, b: nat, f: nat, m: seq<Frame>, m': seq<Frame>, tags': Tags)
    requires Held(h, hhdm) && b < NUM_BUCKETS && |h.store.current| == |h.store.active| == NUM_BUCKETS && h.store.current[b] == None
    requires TakesFrame(h.tags, tags', f) && SameOutside(h.store.m, m, FreeSet(tags')) && f < |m|
    requires |m'| == |m| && m' == m[f := m'[f]] && Pointer(hhdm, f) + FRAME_SIZE <= WORD_LIMIT
    requires FreeList(m'[f], Pointer(hhdm, f), AllObjects(b), b)
    ensures var h' := Holdings(h.store.(m := m', active := h.store.active[b := Pointer(hhdm, f)],
                                        current := h.store.current[b := Some(f)], bucketOf := h.store.bucketOf[f := b],
                                        frees := h.store.frees[f := AllObjects(b)]), h.large, tags');
            Grown(h, h', hhdm, b, f) && Held(h', hhdm) && AllObjects(b) != [] && f !in h.store.bucketOf
  {
    hide Good, FreeSet, FreeList, SlabOk, PartialOk, Placed, ActiveOk, Pow2, Interval, AllObjects, ObjSize;
    var s1 := h.store.(m := m);
    forall g | g in h.store.bucketOf && g < |h.store.m| ensures m[g] == h.store.m[g] { }
    StoreElsewhere(h.store, hhdm, m);
    AddSlab(s1, hhdm, b, f, m'[f]);
    var h' := Holdings(Added(s1, hhdm, b, f, m'[f]), h.large, tags');
    forall g | g in h'.large ensures LargeOk(h', g) { assert LargeOk(h, g); }
    assert SameOutside(h.store.m, m', FreeSet(h.tags));
  }

  lemma DropRearranges(h: Holdings, hhdm: nat, b: nat)
    requires Held(h, hhdm) && b < NUM_BUCKETS && |h.store.current| == |h.store.active| == NUM_BUCKETS
    requires h.store.current[b].Some? ==> h.store.current[b].value in h.store.frees && h.store.frees[h.store.current[b].value] == []
    ensures var h' := h.(store := h.store.(active := h.store.active[b := 0], current := h.store.current[b := None]));
            Rearranged(h, h', hhdm) && Held(h', hhdm)
  {
    hide Good, FreeSet, SlabOk, PartialOk, Placed, ActiveOk, Run;
    DropActive(h.store, hhdm, b);
    var h' := h.(store := h.store.(active := h.store.active[b := 0], current := h.store.current[b := None]));
    forall g | g in h'.large ensures LargeOk(h', g) { assert LargeOk(h, g); }
  }

  ghost function PromotedIn(h: Holdings, hhdm: nat, b: nat): Holdings
    requires Held(h, hhdm) && b < NUM_BUCKETS && |h.store.lists| == NUM_BUCKETS && h.store.lists[b] != []
  {
    h.(store := Promoted(h.store, hhdm, b))
  }

  lemma PromoteReads(h: Holdings, hhdm: nat, b: nat)
    requires Held(h, hhdm) && b < NUM_BUCKETS && |h.store.lists| == NUM_BUCKETS && h.store.lists[b] != []
    requires |h.store.partial| == |h.store.active| == |h.store.current| == NUM_BUCKETS
    ensures var f := h.store.lists[b][0];
            && hhdm <= h.store.partial[b] == Pointer(hhdm, f) && f in h.store.bucketOf && f in h.store.frees
            && h.store.frees[f] != [] && f < |h.store.m| && f !in FreeSet(h.tags)
            && PromotedIn(h, hhdm, b).store ==
                 h.store.(m := h.store.m[f := h.store.m[f][0 := 0]], active := h.store.active[b := h.store.partial[b]],
                          partial := h.store.partial[b := h.store.m[f][0]], current := h.store.current[b := Some(f)],
                          lists := h.store.lists[b := h.store.lists[b][1..]])
  {
    hide Good, FreeSet, SlabOk, PartialOk, Placed, ActiveOk, Run, LargeOk;
    HeadOfList(h.store, hhdm, b);
  }

  lemma PromoteRearranges(h: Holdings, hhdm: nat, b: nat)
    requires Held(h, hhdm) && b < NUM_BUCKETS && |h.store.lists| == |h.store.current| == NUM_BUCKETS
    requires h.store.lists[b] != [] && h.store.current[b] == None
    ensures Rearranged(h, PromotedIn(h, hhdm, b), hhdm) && Held(PromotedIn(h, hhdm, b), hhdm)
  {
    hide Good, FreeSet, SlabOk, PartialOk, Placed, ActiveOk, Run;
    HeadOfList(h.store, hhdm, b);
    Promote(h.store, hhdm, b);
    var h' := PromotedIn(h, hhdm, b);
    forall g | g in h'.large ensures LargeOk(h', g) { assert LargeOk(h, g); }
  }

  /** What popping the active slab `f` reads. */
  lemma PopReads(h: Holdings, hhdm: nat, b: nat, f: nat)
    requires Held(h, hhdm) && b < NUM_BUCKETS && b < |h.store.current| && h.store.current[b] == Some(f)
    requires f in h.store.frees && h.store.frees[f] != []
    ensures var off := h.store.frees[f][0];
            && f in h.store.bucketOf && h.store.bucketOf[f] == b && f < |h.store.m| && f !in FreeSet(h.tags)
            && h.store.m[f][1] == Pointer(hhdm, f) + off > 0 && WordAt(off) < FRAME_WORDS
  {
    hide Good, FreeSet, ObjSize, PartialOk, Placed, LargeOk, Run;
    assert ActiveOk(h.store, hhdm, b);
    assert SlabOk(h.store, hhdm, f);
    ObjectWords(h.store.frees[f][0], h.store.frees[f][0], b);
  }

  lemma PopTakes(h: Holdings, hhdm: nat, b: nat, f: nat)
    requires Held(h, hhdm) && b < NUM_BUCKETS && h.store.current[b] == Some(f)
    requires f in h.store.frees && h.store.frees[f] != [] && WordAt(h.store.frees[f][0]) < FRAME_WORDS
    requires f in h.store.bucketOf && h.store.bucketOf[f] == b && f < |h.store.m|
    ensures Taken(h, Popped(h, f), hhdm, b, f, h.store.frees[f][0]) && Held(Popped(h, f), hhdm)
  {
    hide Good, FreeSet, ObjSize, IsObject, LiveKept, PartialOk, Placed, ActiveOk, LargeOk, Run, ContentsKept, NextObject, WordAt;
    var off, h' := h.store.frees[f][0], Popped(h, f);
    assert SlabOk(h.store, hhdm, f);
    PopObject(h.store.m[f], Pointer(hhdm, f), h.store.frees[f], b);
    ChangeSlab(h.store, hhdm, f, h'.store.m[f], h.store.frees[f][1..]);
    PopHeld(h, h', hhdm, f, b);
    assert [off] + h.store.frees[f][1..] == h.store.frees[f];
    assert h.store.bucketOf[f := b] == h.store.bucketOf;
  }

  ghost function Popped(h: Holdings, f: nat): Holdings
    requires f in h.store.frees && h.store.frees[f] != [] && f < |h.store.m| && WordAt(h.store.frees[f][0]) < FRAME_WORDS
  {
    var frame := h.store.m[f];
    h.(store := h.store.(m := h.store.m[f := frame[1 := frame[WordAt(h.store.frees[f][0])]]],
                         frees := h.store.frees[f := h.store.frees[f][1..]]))
  }

  /** Changing one slab's frame and free list keeps what the heap holds. */
  lemma PopHeld(h: Holdings, h': Holdings, hhdm: nat, f: nat, b: nat)
    requires Held(h, hhdm) && StoreOk(h'.store, hhdm) && f in h.store.bucketOf && f < |h.store.m|
    requires h'.large == h.large && h'.tags == h.tags && h'.store.bucketOf == h.store.bucketOf
    requires |h'.store.m| == |h.store.m| && forall g: nat :: g < |h.store.m| && g != f ==> h'.store.m[g] == h.store.m[g]
    requires forall g :: g in h.store.frees && g != f ==> g in h'.store.frees && h'.store.frees[g] == h.store.frees[g]
    requires h.store.bucketOf[f] == b < NUM_BUCKETS && f in h.store.frees && f in h'.store.frees
    requires LiveKept(h.store.m[f], h'.store.m[f], h.store.frees[f], h'.store.frees[f], b)
    ensures Held(h', hhdm) && ContentsKept(h, h')
    ensures SameOutside(h.store.m, h'.store.m, h.store.bucketOf.Keys)
  {
    hide Good, FreeSet, StoreOk, ObjSize, IsObject, Pow2, Interval;
    forall g | g in h'.large ensures LargeOk(h', g) { assert LargeOk(h, g); }
    forall g, x | g in h.large && x in Run(g, h.large[g]) && x < |h.store.m| ensures h'.store.m[x] == h.store.m[x] {
      assert LargeOk(h, g);
    }
  }
}

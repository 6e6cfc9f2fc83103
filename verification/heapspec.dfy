/** What the kernel heap holds and hands out, stated on snapshots. */
module HeapSpec {
  import opened Alignment
  import opened BuddyTags
  import opened Memory
  import opened Links
  import opened FrameAllocator
  import opened Slabs
  import opened Layouts

  /** The heap's slabs, its large blocks (frame to order) and the allocator's tags. */
  datatype Holdings = Holdings(store: Store, large: map<nat, nat>, tags: Tags)

  ghost function LargeFrames(large: map<nat, nat>): set<nat> {
    set f, g | f in large && g in Run(f, large[f]) :: g
  }

  /** The heap's frames are not free, and slabs and large blocks share none. */
  ghost predicate Held(h: Holdings, hhdm: nat) {
    && StoreOk(h.store, hhdm) && Good(h.tags) && |h.tags| <= |h.store.m|
    && (forall f :: f in h.store.bucketOf ==> f < |h.tags| && f !in FreeSet(h.tags))
    && (forall f :: f in h.large ==> LargeOk(h, f))
    && (forall f, g :: f in h.large && g in h.large && f != g ==> Run(f, h.large[f]) !! Run(g, h.large[g]))
  }

  ghost predicate LargeOk(h: Holdings, f: nat)
    requires f in h.large
  {
    && h.large[f] <= MAX_ORDER && Aligned(f, h.large[f]) && f + Pow2(h.large[f]) <= |h.tags|
    && Run(f, h.large[f]) !! FreeSet(h.tags) && Run(f, h.large[f]) !! h.store.bucketOf.Keys
  }

  /** The object at `off` of slab `f` is handed out. */
  ghost predicate LiveObject(s: Store, b: nat, f: nat, off: nat)
    requires b < NUM_BUCKETS
  {
    f in s.bucketOf && f in s.frees && s.bucketOf[f] == b && IsObject(off, b) && off !in s.frees[f]
  }

  /** `ptr` is handed out for `layout`. */
  ghost predicate Live(h: Holdings, hhdm: nat, ptr: Word, layout: Layout) {
    && hhdm <= ptr
    && var f, off := (ptr - hhdm) / FRAME_SIZE, (ptr - hhdm) % FRAME_SIZE;
       match BucketFor(layout)
       case Some(b) => LiveObject(h.store, b, f, off)
       case None => off == 0 && f in h.large && OrderForLarge(layout) == Some(h.large[f])
  }

  /** Bytes reserved for a layout. */
  ghost function Capacity(layout: Layout): nat {
    match BucketFor(layout)
    case Some(b) => ObjSize(b)
    case None => if OrderForLarge(layout).Some? then Pow2(OrderForLarge(layout).value) * FRAME_SIZE else 0
  }

  /** What is reserved is the smallest object or block that suits the layout. */
  lemma CapacityIsLeast(layout: Layout)
    ensures Suits(1024, layout) ==>
              Capacity(layout) in {16, 32, 64, 128, 256, 512, 1024} && LeastObject(Capacity(layout), layout)
    ensures !Suits(1024, layout) && Suits(0x80_0000, layout) ==>
              exists o: nat :: o <= MAX_ORDER && Capacity(layout) == Pow2(o) * FRAME_SIZE && LeastOrder(o, layout)
    ensures !Suits(0x80_0000, layout) ==> Capacity(layout) == 0
  {
    hide BucketFor, OrderForLarge, Pow2, ObjSize, Suits, LeastObject, LeastOrder;
    BucketFits(layout);
    OrderFits(layout);
    if Suits(1024, layout) { SuitsMore(layout, 1024, 0x80_0000); }
  }

  /** Exactly the pointer `ptr` changes whether it is live; no other allocation does. */
  ghost predicate OthersLive(h: Holdings, h': Holdings, hhdm: nat, ptr: Word) {
    forall p: Word, l: Layout :: p != ptr ==> (Live(h', hhdm, p, l) <==> Live(h, hhdm, p, l))
  }

  /** The contents of allocations that stay live are untouched. */
  ghost predicate ContentsKept(h: Holdings, h': Holdings) {
    && |h'.store.m| == |h.store.m|
    && (forall f :: f in h.store.bucketOf && f in h'.store.bucketOf && f in h.store.frees && f in h'.store.frees
                    && f < |h.store.m| && h.store.bucketOf[f] < NUM_BUCKETS ==>
          LiveKept(h.store.m[f], h'.store.m[f], h.store.frees[f], h'.store.frees[f], h.store.bucketOf[f]))
    && (forall f, g :: f in h.large && f in h'.large && g in Run(f, h.large[f]) && g < |h.store.m| ==>
          h'.store.m[g] == h.store.m[g])
  }

  // ---------------------------------------------------------------- regions

  /** An address in slab or block `f` lies in the frame it names. */
  lemma AddressSplits(hhdm: nat, f: nat, off: nat)
    requires off < FRAME_SIZE
    ensures var ptr := Pointer(hhdm, f) + off;
            (ptr - hhdm) / FRAME_SIZE == f && (ptr - hhdm) % FRAME_SIZE == off
  {
  }

  lemma LiveFrame(h: Holdings, hhdm: nat, p: Word, l: Layout, x: nat)
    requires Held(h, hhdm) && Live(h, hhdm, p, l) && p <= x < p + Capacity(l)
    ensures var f, g := (p - hhdm) / FRAME_SIZE, (x - hhdm) / FRAME_SIZE;
            match BucketFor(l)
            case Some(b) => g == f && f in h.store.bucketOf
            case None => f in h.large && g in Run(f, h.large[f])
  {
    hide StoreOk, Good, FreeSet, BucketFor, OrderForLarge, Pow2, ObjSize, Interval;
    if BucketFor(l).Some? {
      SlabBytes(hhdm, p, x, BucketFor(l).value);
    } else {
      BlockBytes(hhdm, p, x, Pow2(OrderForLarge(l).value));
    }
  }

  lemma SlabBytes(hhdm: nat, p: nat, x: nat, b: nat)
    requires b < NUM_BUCKETS && hhdm <= p && IsObject((p - hhdm) % FRAME_SIZE, b) && p <= x < p + ObjSize(b)
    ensures (x - hhdm) / FRAME_SIZE == (p - hhdm) / FRAME_SIZE
  {
    hide ObjSize;
  }

  lemma BlockBytes(hhdm: nat, p: nat, x: nat, n: nat)
    requires hhdm <= p && (p - hhdm) % FRAME_SIZE == 0 && p <= x < p + n * FRAME_SIZE
    ensures (p - hhdm) / FRAME_SIZE <= (x - hhdm) / FRAME_SIZE < (p - hhdm) / FRAME_SIZE + n
  {
  }

  /** Live allocations never overlap, whatever their sizes. */
  lemma LiveDisjoint(h: Holdings, hhdm: nat, p: Word, l: Layout, q: Word, k: Layout, x: nat)
    requires Held(h, hhdm) && Live(h, hhdm, p, l) && Live(h, hhdm, q, k) && p != q
    ensures !(p <= x < p + Capacity(l) && q <= x < q + Capacity(k))
  {
    hide StoreOk, Good, FreeSet, BucketFor, OrderForLarge, Pow2, ObjSize, Interval, IsObject;
    if p <= x < p + Capacity(l) && q <= x < q + Capacity(k) {
      LiveFrame(h, hhdm, p, l, x);
      LiveFrame(h, hhdm, q, k, x);
      var f, g := (p - hhdm) / FRAME_SIZE, (q - hhdm) / FRAME_SIZE;
      if BucketFor(l).Some? && BucketFor(k).Some? {
        ObjectWords((p - hhdm) % FRAME_SIZE, (q - hhdm) % FRAME_SIZE, BucketFor(l).value);
        ObjectWords((q - hhdm) % FRAME_SIZE, (p - hhdm) % FRAME_SIZE, BucketFor(l).value);
      }
    }
  }

  /** A live small allocation lies past its slab's header, and masking its address finds the slab. */
  lemma ObjectAvoidsHeader(h: Holdings, hhdm: nat, p: Word, l: Layout)
    requires Held(h, hhdm) && hhdm % FRAME_SIZE == 0 && Live(h, hhdm, p, l) && BucketFor(l).Some?
    ensures var f := (p - hhdm) / FRAME_SIZE;
            && p - p % FRAME_SIZE == Pointer(hhdm, f)
            && Pointer(hhdm, f) + 16 <= p && p + Capacity(l) <= Pointer(hhdm, f) + FRAME_SIZE
  {
    hide StoreOk, Good, FreeSet, BucketFor, Pow2, ObjSize;
    var b := BucketFor(l).value;
    ObjectWords((p - hhdm) % FRAME_SIZE, (p - hhdm) % FRAME_SIZE, b);
  }

  // ---------------------------------------------------------------- steps of the heap

  /** Slabs moved between active, partial and full; no object and no frame changed hands. */
  ghost predicate Rearranged(h: Holdings, h': Holdings, hhdm: nat) {
    && Held(h, hhdm) && Held(h', hhdm) && h'.large == h.large && h'.tags == h.tags
    && h'.store.bucketOf == h.store.bucketOf && h'.store.frees == h.store.frees
    && |h'.store.m| == |h.store.m|
    && (forall g: nat :: g < |h.store.m| && g !in h.store.bucketOf ==> h'.store.m[g] == h.store.m[g])
    && (forall g: nat, k: nat :: g in h.store.bucketOf && g < |h.store.m| && 0 < k < FRAME_WORDS ==>
          h'.store.m[g][k] == h.store.m[g][k])
  }

  /** A free frame `f` became a slab of bucket `b` with all objects free. */
  ghost predicate Grown(h: Holdings, h': Holdings, hhdm: nat, b: nat, f: nat) {
    && Held(h, hhdm) && Held(h', hhdm) && b < NUM_BUCKETS && h'.large == h.large && TakesFrame(h.tags, h'.tags, f)
    && f !in h.store.bucketOf && f !in h.store.frees
    && h'.store.bucketOf == h.store.bucketOf[f := b] && h'.store.frees == h.store.frees[f := AllObjects(b)]
    && SameOutside(h.store.m, h'.store.m, FreeSet(h.tags))
  }

  /** The object at `off` of slab `f` was taken from the front of its free list; the slab may be new. */
  ghost predicate Taken(h: Holdings, h': Holdings, hhdm: nat, b: nat, f: nat, off: nat) {
    && Held(h, hhdm) && Held(h', hhdm) && ContentsKept(h, h') && b < NUM_BUCKETS && IsObject(off, b)
    && h'.large == h.large
    && (if f in h.store.bucketOf then h.store.bucketOf[f] == b && h'.tags == h.tags
        else TakesFrame(h.tags, h'.tags, f))
    && h'.store.bucketOf == h.store.bucketOf[f := b]
    && h'.store.frees.Keys == h.store.frees.Keys + {f}
    && (forall g :: g in h.store.frees && g != f ==> h'.store.frees[g] == h.store.frees[g])
    && [off] + h'.store.frees[f] == (if f in h.store.frees then h.store.frees[f] else AllObjects(b))
    && SameOutside(h.store.m, h'.store.m, FreeSet(h.tags) + h.store.bucketOf.Keys)
  }

  lemma RearrangedKeeps(h: Holdings, h': Holdings, hhdm: nat)
    requires Rearranged(h, h', hhdm)
    ensures ContentsKept(h, h')
  {
    hide Good, FreeSet, StoreOk, FreeList, IsObject, ObjSize;
    forall f | f in h.store.bucketOf && f < |h.store.m| && h.store.bucketOf[f] < NUM_BUCKETS && f in h.store.frees
      ensures LiveKept(h.store.m[f], h'.store.m[f], h.store.frees[f], h'.store.frees[f], h.store.bucketOf[f])
    {
      HeaderIsNoObject(h.store.m[f], h'.store.m[f], h.store.frees[f], h'.store.frees[f], h.store.bucketOf[f]);
    }
    forall f, g | f in h.large && g in Run(f, h.large[f]) && g < |h.store.m| ensures h'.store.m[g] == h.store.m[g] {
      assert LargeOk(h, f);
    }
  }

  lemma {:induction false} LiveKeptTrans(f0: Frame, f1: Frame, f2: Frame, l0: seq<nat>, l1: seq<nat>, l2: seq<nat>, b: nat)
    requires b < NUM_BUCKETS && LiveKept(f0, f1, l0, l1, b) && LiveKept(f1, f2, l1, l2, b)
    requires forall off :: off in l1 ==> off in l0 || off in l2
    ensures LiveKept(f0, f2, l0, l2, b)
  {
    hide IsObject, ObjSize;
    forall off: nat, k: nat | IsObject(off, b) && off !in l0 && off !in l2 && WordOf(k, off, b) ensures f2[k] == f0[k] {
      assert off !in l1;
    }
  }

  /** Rearranging slabs first does not change what taking an object means. */
  lemma RearrangeThenTake(h: Holdings, h1: Holdings, h2: Holdings, hhdm: nat, b: nat, f: nat, off: nat)
    requires Rearranged(h, h1, hhdm) && Taken(h1, h2, hhdm, b, f, off)
    ensures Taken(h, h2, hhdm, b, f, off)
  {
    hide Good, FreeSet, StoreOk, LiveKept, IsObject, LargeOk, Run;
    RearrangedKeeps(h, h1, hhdm);
    forall g | g in h.store.bucketOf && g < |h.store.m| && h.store.bucketOf[g] < NUM_BUCKETS && g in h.store.frees && g in h2.store.frees
      ensures LiveKept(h.store.m[g], h2.store.m[g], h.store.frees[g], h2.store.frees[g], h.store.bucketOf[g])
    {
      LiveKeptTrans(h.store.m[g], h1.store.m[g], h2.store.m[g], h.store.frees[g], h1.store.frees[g], h2.store.frees[g], h.store.bucketOf[g]);
    }
    forall g, x | g in h.large && x in Run(g, h.large[g]) && x < |h.store.m| ensures h2.store.m[x] == h.store.m[x] {
      assert h1.store.m[x] == h.store.m[x];
    }
  }

  /** So does growing the heap by the slab first. */
  lemma GrowThenTake(h: Holdings, h1: Holdings, h2: Holdings, hhdm: nat, b: nat, f: nat, off: nat)
    requires Grown(h, h1, hhdm, b, f) && Taken(h1, h2, hhdm, b, f, off) && h2.tags == h1.tags
    ensures Taken(h, h2, hhdm, b, f, off)
  {
    hide Held, FreeSet, IsObject, AllObjects, ContentsKept, TakesFrame, SameOutside;
    assert h2.store.bucketOf == h.store.bucketOf[f := b];
    GrowContents(h, h1, h2, hhdm, b, f, off);
    TakenFrames(h, h1, h2, b, f);
  }

  lemma GrowContents(h: Holdings, h1: Holdings, h2: Holdings, hhdm: nat, b: nat, f: nat, off: nat)
    requires Grown(h, h1, hhdm, b, f) && Taken(h1, h2, hhdm, b, f, off)
    ensures ContentsKept(h, h2)
  {
    hide Good, FreeSet, StoreOk, LiveKept, IsObject, AllObjects, Run, Becomes, ObjSize;
    forall g | g in h.store.bucketOf && g < |h.store.m| && h.store.bucketOf[g] < NUM_BUCKETS && g in h.store.frees && g in h2.store.frees
      ensures LiveKept(h.store.m[g], h2.store.m[g], h.store.frees[g], h2.store.frees[g], h.store.bucketOf[g])
    {
      assert h1.store.m[g] == h.store.m[g];
    }
    forall g, x | g in h.large && x in Run(g, h.large[g]) && x < |h.store.m| ensures h2.store.m[x] == h.store.m[x] {
      assert LargeOk(h, g);
      assert h1.store.m[x] == h.store.m[x];
    }
  }

  lemma TakenFrames(h: Holdings, h1: Holdings, h2: Holdings, b: nat, f: nat)
    requires SameOutside(h.store.m, h1.store.m, FreeSet(h.tags)) && TakesFrame(h.tags, h1.tags, f)
    requires SameOutside(h1.store.m, h2.store.m, FreeSet(h1.tags) + h1.store.bucketOf.Keys)
    requires h1.store.bucketOf == h.store.bucketOf[f := b]
    ensures SameOutside(h.store.m, h2.store.m, FreeSet(h.tags) + h.store.bucketOf.Keys)
  {
    hide FreeSet, SameOutside;
    SameOutsideTrans(h.store.m, h1.store.m, h2.store.m, FreeSet(h.tags), FreeSet(h1.tags) + h1.store.bucketOf.Keys,
                     FreeSet(h.tags) + h.store.bucketOf.Keys);
  }

  /** Taking an object makes exactly its pointer live. */
  lemma TakenLive(h: Holdings, h': Holdings, hhdm: nat, b: nat, f: nat, off: nat, ptr: Word)
    requires Taken(h, h', hhdm, b, f, off) && ptr == Pointer(hhdm, f) + off
    ensures OthersLive(h, h', hhdm, ptr)
    ensures forall l: Layout :: BucketFor(l) == Some(b) ==> Live(h', hhdm, ptr, l)
    ensures forall l: Layout :: !Live(h, hhdm, ptr, l)
  {
    hide Held, BucketFor, OrderForLarge, ContentsKept, SameOutside, TakesFrame, ObjSize, LiveObject, IsObject;
    ObjectWords(off, off, b);
    AddressSplits(hhdm, f, off);
    TakenObject(h, h', hhdm, b, f, off);
    forall p: Word, l: Layout | p != ptr ensures Live(h', hhdm, p, l) <==> Live(h, hhdm, p, l) {
      if hhdm <= p && BucketFor(l).Some? {
        ObjectStatus(h, h', hhdm, b, f, off, BucketFor(l).value, (p - hhdm) / FRAME_SIZE, (p - hhdm) % FRAME_SIZE);
      }
    }
  }

  /** The taken object was free before, or its slab did not exist; after, it is live. */
  lemma TakenObject(h: Holdings, h': Holdings, hhdm: nat, b: nat, f: nat, off: nat)
    requires Taken(h, h', hhdm, b, f, off)
    ensures f !in h.large && LiveObject(h'.store, b, f, off)
    ensures forall c: nat :: c < NUM_BUCKETS ==> !LiveObject(h.store, c, f, off)
  {
    hide Held, ContentsKept, SameOutside, ObjSize, IsObject, TakesFrame, AllObjects;
    var list := if f in h.store.frees then h.store.frees[f] else AllObjects(b);
    AllObjectsAreObjects(b);
    if f in h.store.frees { SlabListDistinct(h, hhdm, f); }
    FrontOnce(list, off, h'.store.frees[f]);
    SlabNotLarge(h', hhdm, f);
  }

  lemma SlabListDistinct(h: Holdings, hhdm: nat, f: nat)
    requires Held(h, hhdm) && f in h.store.frees
    ensures f in h.store.bucketOf && NoRepeats(h.store.frees[f])
  {
    hide Good, FreeSet, ObjSize, IsObject, PartialOk, ActiveOk, Placed, LargeOk, Run;
    assert SlabOk(h.store, hhdm, f);
  }

  lemma FrontOnce(list: seq<nat>, off: nat, rest: seq<nat>)
    requires NoRepeats(list) && list == [off] + rest
    ensures off in list && off !in rest
  {
    assert list[0] == off;
    forall k: nat | k < |rest| ensures rest[k] != off { assert list[k + 1] == rest[k]; }
  }

  lemma SlabNotLarge(h: Holdings, hhdm: nat, f: nat)
    requires Held(h, hhdm) && f in h.store.bucketOf
    ensures f !in h.large
  {
    hide Good, FreeSet, StoreOk, Pow2, Interval;
    assert f in h.large ==> f in Run(f, h.large[f]);
  }

  lemma ObjectStatus(h: Holdings, h': Holdings, hhdm: nat, b: nat, f: nat, off: nat, c: nat, g: nat, o: nat)
    requires Taken(h, h', hhdm, b, f, off) && c < NUM_BUCKETS && !(g == f && o == off)
    ensures LiveObject(h'.store, c, g, o) <==> LiveObject(h.store, c, g, o)
  {
    hide Good, FreeSet, ContentsKept, SameOutside, ObjSize, IsObject, TakesFrame, SlabOk, PartialOk, ActiveOk, Placed, AllObjects, LargeOk;
    if g == f {
      var list := if f in h.store.frees then h.store.frees[f] else AllObjects(b);
      ElementOfTail(list, o);
      assert list[0] == off && list[1..] == h'.store.frees[f];
      EveryObjectListed(o, b);
    }
  }

  // ---------------------------------------------------------------- giving an object back

  /** The object at `off` of slab `f` is back at the front of its free list. */
  ghost predicate Returned(h: Holdings, h': Holdings, hhdm: nat, b: nat, f: nat, off: nat) {
    && Held(h, hhdm) && Held(h', hhdm) && ContentsKept(h, h') && b < NUM_BUCKETS && LiveObject(h.store, b, f, off)
    && h'.large == h.large && h'.tags == h.tags && h'.store.bucketOf == h.store.bucketOf
    && h'.store.frees == h.store.frees[f := [off] + h.store.frees[f]]
    && SameOutside(h.store.m, h'.store.m, h.store.bucketOf.Keys)
  }

  lemma ReturnedLive(h: Holdings, h': Holdings, hhdm: nat, b: nat, f: nat, off: nat, ptr: Word)
    requires Returned(h, h', hhdm, b, f, off) && ptr == Pointer(hhdm, f) + off
    ensures OthersLive(h, h', hhdm, ptr)
    ensures forall l: Layout :: !Live(h', hhdm, ptr, l)
  {
    hide Held, BucketFor, OrderForLarge, ContentsKept, SameOutside, ObjSize;
    ObjectWords(off, off, b);
    AddressSplits(hhdm, f, off);
    assert ([off] + h.store.frees[f])[0] == off;
    forall p: Word, l: Layout | p != ptr ensures Live(h', hhdm, p, l) <==> Live(h, hhdm, p, l) {
    }
    forall l: Layout ensures !Live(h', hhdm, ptr, l) {
    }
  }

  // ---------------------------------------------------------------- large blocks

  /** A free run became a large block. */
  ghost predicate LargeTaken(h: Holdings, h': Holdings, f: nat, o: nat) {
    && f !in h.large && h'.large == h.large[f := o] && o <= MAX_ORDER && Aligned(f, o) && f + Pow2(o) <= |h.tags|
    && Run(f, o) <= FreeSet(h.tags) && Becomes(h.tags, h'.tags, FreeSet(h.tags) - Run(f, o))
    && SameOutside(h.store.m, h'.store.m, FreeSet(h'.tags))
    && h'.store == h.store.(m := h'.store.m)
  }

  lemma LargeTakenHeld(h: Holdings, h': Holdings, hhdm: nat, f: nat, o: nat)
    requires Held(h, hhdm) && LargeTaken(h, h', f, o)
    ensures Held(h', hhdm) && ContentsKept(h, h')
  {
    hide Good, FreeSet, StoreOk, Pow2, Interval, FreeList, ObjSize, IsObject;
    StoreElsewhere(h.store, hhdm, h'.store.m);
    forall g | g in h'.large ensures LargeOk(h', g) {
      if g != f { assert LargeOk(h, g); }
    }
    forall g, k | g in h'.large && k in h'.large && g != k ensures Run(g, h'.large[g]) !! Run(k, h'.large[k]) {
      if g != f { assert LargeOk(h, g); }
      if k != f { assert LargeOk(h, k); }
    }
    forall g, x | g in h.large && x in Run(g, h.large[g]) && x < |h.store.m| ensures h'.store.m[x] == h.store.m[x] {
      assert LargeOk(h, g);
    }
  }

  lemma LargeTakenLive(h: Holdings, h': Holdings, hhdm: nat, f: nat, o: nat, ptr: Word)
    requires Held(h, hhdm) && LargeTaken(h, h', f, o) && ptr == Pointer(hhdm, f)
    ensures OthersLive(h, h', hhdm, ptr)
    ensures forall l: Layout :: BucketFor(l) == None && OrderForLarge(l) == Some(o) ==> Live(h', hhdm, ptr, l)
    ensures forall l: Layout :: !Live(h, hhdm, ptr, l)
  {
    hide Held, BucketFor, OrderForLarge, SameOutside, FreeSet, Run, Pow2, Becomes, Aligned;
    AddressSplits(hhdm, f, 0);
    ZeroIsNoObject();
    forall p: Word, l: Layout | p != ptr ensures Live(h', hhdm, p, l) <==> Live(h, hhdm, p, l) {
    }
  }

  lemma ZeroIsNoObject()
    ensures forall b: nat :: b < NUM_BUCKETS ==> !IsObject(0, b)
  {
  }

  /** A large block became free. */
  ghost predicate LargeReturned(h: Holdings, h': Holdings, f: nat, o: nat) {
    && f in h.large && h.large[f] == o && h'.large == h.large - {f}
    && Becomes(h.tags, h'.tags, FreeSet(h.tags) + Run(f, o))
    && SameOutside(h.store.m, h'.store.m, FreeSet(h'.tags))
    && h'.store == h.store.(m := h'.store.m)
  }

  lemma LargeReturnedHeld(h: Holdings, h': Holdings, hhdm: nat, f: nat, o: nat)
    requires Held(h, hhdm) && LargeReturned(h, h', f, o)
    ensures Held(h', hhdm) && ContentsKept(h, h')
  {
    hide Good, FreeSet, StoreOk, Pow2, Interval, FreeList, ObjSize, IsObject;
    assert LargeOk(h, f);
    StoreElsewhere(h.store, hhdm, h'.store.m);
    forall g | g in h'.large ensures LargeOk(h', g) {
      assert LargeOk(h, g);
    }
    forall g, x | g in h.large && g in h'.large && x in Run(g, h.large[g]) && x < |h.store.m|
      ensures h'.store.m[x] == h.store.m[x]
    {
      assert LargeOk(h, g);
    }
  }

  lemma LargeReturnedLive(h: Holdings, h': Holdings, hhdm: nat, f: nat, o: nat, ptr: Word)
    requires LargeReturned(h, h', f, o) && ptr == Pointer(hhdm, f)
    ensures OthersLive(h, h', hhdm, ptr)
    ensures forall l: Layout :: !Live(h', hhdm, ptr, l)
  {
    hide BucketFor, OrderForLarge, SameOutside, FreeSet, Run, Pow2, Becomes;
    AddressSplits(hhdm, f, 0);
    ZeroIsNoObject();
    forall p: Word, l: Layout | p != ptr ensures Live(h', hhdm, p, l) <==> Live(h, hhdm, p, l) {
    }
  }

  // ---------------------------------------------------------------- frames

  /** Frames that are free or the heap's own. */
  ghost function HeapPool(h: Holdings): set<nat> {
    FreeSet(h.tags) + h.store.bucketOf.Keys + LargeFrames(h.large)
  }

  /** What every heap operation keeps: the pool of frames and all memory outside it. */
  ghost predicate HeapEvolves(h: Holdings, h': Holdings) {
    HeapPool(h') == HeapPool(h) && |h'.tags| == |h.tags| && SameOutside(h.store.m, h'.store.m, HeapPool(h))
  }

  lemma RearrangedPool(h: Holdings, h': Holdings, hhdm: nat)
    requires Rearranged(h, h', hhdm)
    ensures HeapEvolves(h, h')
  {
    hide Held, FreeSet, LargeFrames;
  }

  lemma TakenPool(h: Holdings, h': Holdings, hhdm: nat, b: nat, f: nat, off: nat)
    requires Taken(h, h', hhdm, b, f, off)
    ensures HeapEvolves(h, h')
  {
    hide Held, FreeSet, LargeFrames, ContentsKept, Good;
    assert h'.store.bucketOf.Keys == h.store.bucketOf.Keys + {f};
  }

  lemma ReturnedPool(h: Holdings, h': Holdings, hhdm: nat, b: nat, f: nat, off: nat)
    requires Returned(h, h', hhdm, b, f, off)
    ensures HeapEvolves(h, h')
  {
    hide Held, FreeSet, LargeFrames, ContentsKept;
  }

  lemma LargeFramesAdd(large: map<nat, nat>, f: nat, o: nat)
    requires f !in large
    ensures LargeFrames(large[f := o]) == LargeFrames(large) + Run(f, o)
  {
    hide Run;
    var large' := large[f := o];
    forall x | x in LargeFrames(large) ensures x in LargeFrames(large') {
      var g :| g in large && x in Run(g, large[g]);
      assert g in large' && x in Run(g, large'[g]);
    }
    forall x | x in Run(f, o) ensures x in LargeFrames(large') {
      assert f in large' && x in Run(f, large'[f]);
    }
  }

  lemma LargeTakenPool(h: Holdings, h': Holdings, f: nat, o: nat)
    requires LargeTaken(h, h', f, o)
    ensures HeapEvolves(h, h')
  {
    hide FreeSet, LargeFrames, Run, Good, Pow2, SameOutside;
    LargeFramesAdd(h.large, f, o);
    SameOutsideSelf(h.store.m, {});
    SameOutsideTrans(h.store.m, h.store.m, h'.store.m, {}, FreeSet(h'.tags), HeapPool(h));
  }

  lemma LargeReturnedPool(h: Holdings, h': Holdings, hhdm: nat, f: nat, o: nat)
    requires Held(h, hhdm) && LargeReturned(h, h', f, o)
    ensures HeapEvolves(h, h')
  {
    hide FreeSet, LargeFrames, Good, StoreOk, Pow2, SameOutside, Interval;
    assert h.large == h'.large[f := o];
    LargeFramesAdd(h'.large, f, o);
    SameOutsideSelf(h.store.m, {});
    SameOutsideTrans(h.store.m, h.store.m, h'.store.m, {}, FreeSet(h'.tags), HeapPool(h));
  }

  // ---------------------------------------------------------------- alignment

  /** The direct map starts at a multiple of 8 MiB. */
  const HHDM_SHIFT: nat := 23

  lemma {:induction false} AlignedShift(f: nat, o: nat, k: nat)
    requires Aligned(f, o)
    ensures Aligned(f * Pow2(k), o + k)
    decreases k
  {
    hide Down;
    if k > 0 {
      AlignedShift(f, o, k - 1);
      DoubleFactor(f, Pow2(k - 1));
      AlignedDouble(f * Pow2(k - 1), o + k - 1);
    }
  }

  lemma AlignedDouble(x: nat, o: nat)
    requires Aligned(x, o)
    ensures Aligned(2 * x, o + 1)
  {
    assert 2 * x / 2 == x;
    assert Down(2 * x, o + 1) == 2 * Down(x, o);
  }

  lemma FramePointerAligned(hhdm: nat, f: nat, o: nat)
    requires Aligned(hhdm, HHDM_SHIFT) && Aligned(f, o) && o <= MAX_ORDER
    ensures Aligned(Pointer(hhdm, f), o + FRAME_SHIFT)
  {
    hide Down, Pow2;
    AlignedShift(f, o, FRAME_SHIFT);
    FrameIsPower();
    AlignedSmaller(hhdm, o + FRAME_SHIFT, HHDM_SHIFT);
    AlignedAdd(hhdm, f * FRAME_SIZE, o + FRAME_SHIFT);
  }

  lemma FrameIsPower()
    ensures Pow2(FRAME_SHIFT) == FRAME_SIZE
  {
  }

  /** Objects are aligned to their size. */
  lemma ObjectAligned(hhdm: nat, f: nat, off: nat, b: nat)
    requires Aligned(hhdm, HHDM_SHIFT) && b < NUM_BUCKETS && IsObject(off, b)
    ensures Aligned(Pointer(hhdm, f) + off, b + MIN_BUCKET_SHIFT)
  {
    hide Down, Pow2, ObjSize;
    OrderZero(f);
    FramePointerAligned(hhdm, f, 0);
    AlignedSmaller(Pointer(hhdm, f), b + MIN_BUCKET_SHIFT, FRAME_SHIFT);
    ObjSizeIsPower(b);
    DownIsRemainder(off, b + MIN_BUCKET_SHIFT);
    AlignedAdd(Pointer(hhdm, f), off, b + MIN_BUCKET_SHIFT);
  }

  lemma OrderZero(f: nat)
    ensures Aligned(f, 0)
  {
  }
}

/** Slabs: one frame cut into objects of one size, with the free ones on a list threaded through
  them (kernel/src/mm/heap.rs).

  Word 0 of a slab's frame is `next`, the next slab of the partial list; word 1 is `free`, the first
  free object.  The objects stand at the positive multiples of their size; the first word of a free
  object is the next one.
 */
module Slabs {
  import opened Alignment
  import opened Memory
  import opened Links

  const NUM_BUCKETS: nat := 7

  /** `OBJ_SIZE`: 16 bytes up to 1024. */
  function ObjSize(bucket: nat): (size: nat)
    requires bucket < NUM_BUCKETS
    ensures size in {16, 32, 64, 128, 256, 512, 1024}
  {
    [16, 32, 64, 128, 256, 512, 1024][bucket]
  }

  /** `off` is the offset of an object in a slab of this bucket. */
  predicate IsObject(off: nat, bucket: nat)
    requires bucket < NUM_BUCKETS
  {
    off > 0 && off % ObjSize(bucket) == 0 && off + ObjSize(bucket) <= FRAME_SIZE
  }

  /** The word of the frame where an object starts. */
  function WordAt(off: nat): nat {
    off / 8
  }

  /** Word `k` belongs to the object at `off`. */
  predicate WordOf(k: nat, off: nat, bucket: nat)
    requires bucket < NUM_BUCKETS
  {
    off <= 8 * k < off + ObjSize(bucket) && k < FRAME_WORDS
  }

  ghost predicate Objects(list: seq<nat>, bucket: nat)
    requires bucket < NUM_BUCKETS
  {
    NoRepeats(list) && forall k: nat :: k < |list| ==> IsObject(list[k], bucket)
  }

  ghost function NextObject(base: nat, list: seq<nat>, k: nat): nat
    requires k <= |list|
  {
    if k == |list| then 0 else base + list[k]
  }

  /** The free objects of a slab, in order, are `list`. */
  ghost predicate FreeList(f: Frame, base: nat, list: seq<nat>, bucket: nat)
    requires bucket < NUM_BUCKETS
  {
    && Objects(list, bucket) && f[1] == NextObject(base, list, 0)
    && forall k: nat :: k < |list| ==> f[WordAt(list[k])] == NextObject(base, list, k + 1)
  }

  /** Objects start at words past the header, and distinct objects at distinct words. */
  lemma ObjectWords(a: nat, b: nat, bucket: nat)
    requires bucket < NUM_BUCKETS && IsObject(a, bucket) && IsObject(b, bucket)
    ensures 2 <= WordAt(a) < FRAME_WORDS && 8 * WordAt(a) == a
    ensures a != b ==> WordAt(a) != WordAt(b)
    ensures a < b ==> a + ObjSize(bucket) <= b
  {
    var size := ObjSize(bucket);
    MultipleOf16(a, size);
    MultipleOf16(b, size);
    if a < b { Multiples(a, b, size); }
  }

  lemma MultipleOf16(off: nat, size: nat)
    requires size in {16, 32, 64, 128, 256, 512, 1024} && off % size == 0
    ensures off % 16 == 0
  {
    var q := off / size;
    if size == 32 { TimesSixteen(off, 2 * q); }
    else if size == 64 { TimesSixteen(off, 4 * q); }
    else if size == 128 { TimesSixteen(off, 8 * q); }
    else if size == 256 { TimesSixteen(off, 16 * q); }
    else if size == 512 { TimesSixteen(off, 32 * q); }
    else if size == 1024 { TimesSixteen(off, 64 * q); }
  }

  lemma TimesSixteen(x: nat, k: nat)
    requires x == 16 * k
    ensures x % 16 == 0
  {
  }

  lemma Multiples(a: nat, b: nat, size: nat)
    requires size in {16, 32, 64, 128, 256, 512, 1024} && a % size == 0 && b % size == 0 && a < b
    ensures a + size <= b
  {
  }

  /** Words of objects that are live before and after are untouched. */
  ghost predicate LiveKept(f: Frame, f': Frame, list: seq<nat>, list': seq<nat>, bucket: nat)
    requires bucket < NUM_BUCKETS
  {
    forall off: nat, k: nat :: IsObject(off, bucket) && off !in list && off !in list' && WordOf(k, off, bucket) ==>
      f'[k] == f[k]
  }

  /** Taking the first free object. */
  lemma PopObject(f: Frame, base: nat, list: seq<nat>, bucket: nat)
    requires bucket < NUM_BUCKETS && FreeList(f, base, list, bucket) && list != []
    ensures WordAt(list[0]) < FRAME_WORDS
    ensures var f' := f[1 := f[WordAt(list[0])]];
            FreeList(f', base, list[1..], bucket) && LiveKept(f, f', list, list[1..], bucket)
  {
    hide IsObject, ObjSize;
    forall k: nat | k < |list| ensures 2 <= WordAt(list[k]) < FRAME_WORDS {
      ObjectWords(list[k], list[k], bucket);
    }
    var f' := f[1 := f[WordAt(list[0])]];
    HeaderIsNoObject(f, f', list, list[1..], bucket);
  }

  lemma HeaderIsNoObject(f: Frame, f': Frame, list: seq<nat>, list': seq<nat>, bucket: nat)
    requires bucket < NUM_BUCKETS
    requires forall k: nat :: 2 <= k < FRAME_WORDS ==> f'[k] == f[k]
    ensures LiveKept(f, f', list, list', bucket)
  {
    hide ObjSize;
    forall off: nat, k: nat | IsObject(off, bucket) && WordOf(k, off, bucket)
      ensures f'[k] == f[k]
    {
      ObjectWords(off, off, bucket);
    }
  }

  /** Giving an object back. */
  lemma PushObject(f: Frame, base: nat, list: seq<nat>, bucket: nat, off: nat)
    requires bucket < NUM_BUCKETS && FreeList(f, base, list, bucket)
    requires IsObject(off, bucket) && off !in list && base + off < WORD_LIMIT
    ensures WordAt(off) < FRAME_WORDS
    ensures var f' := f[WordAt(off) := f[1]][1 := base + off];
            FreeList(f', base, [off] + list, bucket) && LiveKept(f, f', list, [off] + list, bucket)
  {
    hide IsObject, ObjSize, WordAt, LiveKept;
    ObjectWords(off, off, bucket);
    var f', list' := f[WordAt(off) := f[1]][1 := base + off], [off] + list;
    forall k: nat | k < |list'| ensures IsObject(list'[k], bucket) && 2 <= WordAt(list'[k]) < FRAME_WORDS {
      ObjectWords(list'[k], off, bucket);
    }
    forall k: nat | k < |list'| ensures f'[WordAt(list'[k])] == NextObject(base, list', k + 1) {
      ObjectWords(list'[k], off, bucket);
      if k > 0 { assert f[WordAt(list[k - 1])] == NextObject(base, list, k); }
    }
    PushKeepsLive(f, f', list, bucket, off);
  }

  lemma PushKeepsLive(f: Frame, f': Frame, list: seq<nat>, bucket: nat, off: nat)
    requires bucket < NUM_BUCKETS && IsObject(off, bucket) && WordAt(off) < FRAME_WORDS
    requires forall k: nat :: 2 <= k < FRAME_WORDS && k != WordAt(off) ==> f'[k] == f[k]
    ensures LiveKept(f, f', list, [off] + list, bucket)
  {
    hide ObjSize;
    var list' := [off] + list;
    assert list'[0] == off;
    forall o: nat, k: nat | IsObject(o, bucket) && o !in list' && WordOf(k, o, bucket)
      ensures f'[k] == f[k]
    {
      assert o != off;
      ObjectWords(o, off, bucket);
      ObjectWords(off, o, bucket);
      MultipleOf16(off, ObjSize(bucket));
    }
  }

  /** `(SLAB_FRAME_SIZE - data_off) / obj_size`, where the header takes one object's room. */
  function ObjCount(bucket: nat): (count: nat)
    requires bucket < NUM_BUCKETS
    ensures count >= 3 && (count + 1) * ObjSize(bucket) == FRAME_SIZE
  {
    (FRAME_SIZE - ObjSize(bucket)) / ObjSize(bucket)
  }

  /** Every object of a slab, in the order `refill` threads them. */
  ghost function AllObjects(bucket: nat): (list: seq<nat>)
    requires bucket < NUM_BUCKETS
    ensures |list| == ObjCount(bucket)
    ensures forall k: nat :: k < |list| ==> list[k] == (k + 1) * ObjSize(bucket)
  {
    seq(ObjCount(bucket), (k: nat) => (k + 1) * ObjSize(bucket))
  }

  lemma ObjectsAreMultiples(bucket: nat, k: nat)
    requires bucket < NUM_BUCKETS && k < ObjCount(bucket)
    ensures IsObject((k + 1) * ObjSize(bucket), bucket)
  {
    var size := ObjSize(bucket);
    hide ObjSize;
    MultipleBounds(k, ObjCount(bucket), size);
  }

  lemma MultipleBounds(k: nat, n: nat, size: nat)
    requires k < n && size > 0
    ensures 0 < (k + 1) * size && (k + 1) * size + size <= (n + 1) * size && (k + 1) * size % size == 0
  {
    Distribute(k + 1, 1, size);
    Distribute(k + 2, n - k - 1, size);
    ProductAtLeast(k + 1, size);
    RemainderUnique((k + 1) * size, size, k + 1, 0);
  }

  lemma EveryObjectListed(off: nat, bucket: nat)
    requires bucket < NUM_BUCKETS
    ensures IsObject(off, bucket) <==> off in AllObjects(bucket)
  {
    var all, size := AllObjects(bucket), ObjSize(bucket);
    if IsObject(off, bucket) {
      var k := off / size - 1;
      assert all[k] == off;
    }
    if off in all {
      var k: nat :| k < |all| && all[k] == off;
      ObjectsAreMultiples(bucket, k);
    }
  }

  lemma AllObjectsAreObjects(bucket: nat)
    requires bucket < NUM_BUCKETS
    ensures Objects(AllObjects(bucket), bucket)
  {
    hide IsObject, ObjCount, ObjSize;
    var all, size := AllObjects(bucket), ObjSize(bucket);
    forall k: nat | k < |all| ensures IsObject(all[k], bucket) { ObjectsAreMultiples(bucket, k); }
    forall i: nat, j: nat | i < j < |all| ensures all[i] != all[j] {
      StrictProduct(i + 1, j + 1, size);
    }
  }

  lemma StrictProduct(a: nat, b: nat, size: nat)
    requires a < b && size > 0
    ensures a * size < b * size
  {
    Distribute(a, b - a, size);
    ProductAtLeast(b - a, size);
  }

  // ---------------------------------------------------------------- where slabs stand

  /** The heap's state: memory, the two pointer arrays, and what they mean.  `current[b]` is the
      active slab of bucket b, `lists[b]` its partial list, `bucketOf` and `frees` give each slab's
      bucket and free objects. */
  datatype Store = Store(m: seq<Frame>, active: seq<Word>, partial: seq<Word>,
                         current: seq<Option<nat>>, lists: seq<seq<nat>>,
                         bucketOf: map<nat, nat>, frees: map<nat, seq<nat>>)

  ghost predicate SlabOk(s: Store, hhdm: nat, f: nat)
    requires f in s.bucketOf && f in s.frees
  {
    && s.bucketOf[f] < NUM_BUCKETS && f < |s.m|
    && Pointer(hhdm, f) + FRAME_SIZE <= WORD_LIMIT
    && FreeList(s.m[f], Pointer(hhdm, f), s.frees[f], s.bucketOf[f])
  }

  ghost function NextSlab(hhdm: nat, list: seq<nat>, k: nat): nat
    requires k <= |list|
  {
    if k == |list| then 0 else Pointer(hhdm, list[k])
  }

  /** The partial list of a bucket: no repeats, linked, all with a free object. */
  ghost predicate PartialOk(s: Store, hhdm: nat, b: nat)
    requires b < |s.lists| && b < |s.partial|
  {
    && NoRepeats(s.lists[b]) && s.partial[b] == NextSlab(hhdm, s.lists[b], 0)
    && forall k: nat :: k < |s.lists[b]| ==>
         var f := s.lists[b][k];
         && f in s.bucketOf && f in s.frees && s.bucketOf[f] == b && s.frees[f] != []
         && f < |s.m| && s.m[f][0] == NextSlab(hhdm, s.lists[b], k + 1)
  }

  ghost predicate ActiveOk(s: Store, hhdm: nat, b: nat)
    requires b < |s.current| && b < |s.active| && b < |s.lists|
  {
    match s.current[b]
    case None => s.active[b] == 0
    case Some(f) => s.active[b] == Pointer(hhdm, f) && f in s.bucketOf && f in s.frees && s.bucketOf[f] == b && f !in s.lists[b]
  }

  /** A slab is active, or on its partial list, or full. */
  ghost predicate Placed(s: Store, f: nat)
    requires f in s.bucketOf && f in s.frees && s.bucketOf[f] < |s.current| && s.bucketOf[f] < |s.lists|
  {
    s.current[s.bucketOf[f]] == Some(f) || f in s.lists[s.bucketOf[f]] || s.frees[f] == []
  }

  ghost predicate StoreOk(s: Store, hhdm: nat) {
    && |s.active| == |s.partial| == |s.current| == |s.lists| == NUM_BUCKETS && 0 < hhdm
    && s.bucketOf.Keys == s.frees.Keys
    && (forall f :: f in s.bucketOf ==> SlabOk(s, hhdm, f) && Placed(s, f))
    && (forall b: nat :: b < NUM_BUCKETS ==> PartialOk(s, hhdm, b) && ActiveOk(s, hhdm, b))
  }

  /** A slab is not on two lists, and never both active and listed. */
  lemma PlacedOnce(s: Store, hhdm: nat, f: nat, b: nat)
    requires StoreOk(s, hhdm) && b < NUM_BUCKETS && f in s.lists[b]
    ensures f in s.bucketOf && s.bucketOf[f] == b && s.frees[f] != []
    ensures forall c: nat :: c < NUM_BUCKETS ==> s.current[c] != Some(f)
    ensures forall c: nat :: c < NUM_BUCKETS && c != b ==> f !in s.lists[c]
  {
    hide FreeList;
    assert PartialOk(s, hhdm, b);
    forall c: nat | c < NUM_BUCKETS ensures s.current[c] != Some(f) && (c != b ==> f !in s.lists[c]) {
      assert PartialOk(s, hhdm, c) && ActiveOk(s, hhdm, c);
    }
  }

  // ---------------------------------------------------------------- steps

  /** One slab's free list changes and nothing else: the rest stays in order. */
  lemma ChangeSlab(s: Store, hhdm: nat, f: nat, frame: Frame, list: seq<nat>)
    requires StoreOk(s, hhdm) && f in s.bucketOf
    requires frame[0] == s.m[f][0] && FreeList(frame, Pointer(hhdm, f), list, s.bucketOf[f])
    requires s.current[s.bucketOf[f]] == Some(f) || (f in s.lists[s.bucketOf[f]] && list != []) || (s.frees[f] == [] && list == [])
    ensures StoreOk(s.(m := s.m[f := frame], frees := s.frees[f := list]), hhdm)
  {
    hide FreeList;
    var s' := s.(m := s.m[f := frame], frees := s.frees[f := list]);
    forall b: nat | b < NUM_BUCKETS ensures PartialOk(s', hhdm, b) && ActiveOk(s', hhdm, b) {
      if f in s.lists[b] { PlacedOnce(s, hhdm, f, b); }
      ChangedList(s, hhdm, f, frame, list, b);
    }
    forall g | g in s'.bucketOf ensures SlabOk(s', hhdm, g) && Placed(s', g) {
      assert SlabOk(s, hhdm, g) && Placed(s, g);
    }
  }

  lemma ChangedList(s: Store, hhdm: nat, f: nat, frame: Frame, list: seq<nat>, b: nat)
    requires StoreOk(s, hhdm) && f in s.bucketOf && f < |s.m| && b < NUM_BUCKETS && frame[0] == s.m[f][0]
    requires f in s.lists[b] ==> list != []
    ensures var s' := s.(m := s.m[f := frame], frees := s.frees[f := list]);
            PartialOk(s', hhdm, b) && ActiveOk(s', hhdm, b)
  {
    hide FreeList, SlabOk, Placed;
    assert PartialOk(s, hhdm, b) && ActiveOk(s, hhdm, b);
  }

  /** Dropping an exhausted active slab. */
  lemma DropActive(s: Store, hhdm: nat, b: nat)
    requires StoreOk(s, hhdm) && b < NUM_BUCKETS
    requires s.current[b].Some? ==> s.current[b].value in s.frees && s.frees[s.current[b].value] == []
    ensures StoreOk(s.(active := s.active[b := 0], current := s.current[b := None]), hhdm)
  {
    hide FreeList;
    var s' := s.(active := s.active[b := 0], current := s.current[b := None]);
    forall c: nat | c < NUM_BUCKETS ensures PartialOk(s', hhdm, c) && ActiveOk(s', hhdm, c) {
      assert PartialOk(s, hhdm, c) && ActiveOk(s, hhdm, c);
    }
    forall g | g in s'.bucketOf ensures SlabOk(s', hhdm, g) && Placed(s', g) {
      assert SlabOk(s, hhdm, g) && Placed(s, g);
      assert ActiveOk(s, hhdm, s.bucketOf[g]);
    }
  }

  /** What the heap reads when it looks at a slab of a bucket. */
  lemma HeadOfList(s: Store, hhdm: nat, b: nat)
    requires StoreOk(s, hhdm) && b < NUM_BUCKETS && s.lists[b] != []
    ensures var f := s.lists[b][0];
            && f in s.bucketOf && s.bucketOf[f] == b && f in s.frees && s.frees[f] != [] && f < |s.m|
            && Pointer(hhdm, f) + FRAME_SIZE <= WORD_LIMIT
            && s.partial[b] == Pointer(hhdm, f) && s.m[f][0] == NextSlab(hhdm, s.lists[b], 1)
  {
    hide FreeList;
    assert PartialOk(s, hhdm, b);
    assert SlabOk(s, hhdm, s.lists[b][0]);
  }

  ghost function Promoted(s: Store, hhdm: nat, b: nat): Store
    requires StoreOk(s, hhdm) && b < NUM_BUCKETS && s.lists[b] != []
  {
    HeadOfList(s, hhdm, b);
    var f := s.lists[b][0];
    s.(m := s.m[f := s.m[f][0 := 0]], active := s.active[b := Pointer(hhdm, f)], partial := s.partial[b := s.m[f][0]],
       current := s.current[b := Some(f)], lists := s.lists[b := s.lists[b][1..]])
  }

  /** The head of the partial list becomes the active slab. */
  lemma Promote(s: Store, hhdm: nat, b: nat)
    requires StoreOk(s, hhdm) && b < NUM_BUCKETS && s.current[b] == None && s.lists[b] != []
    ensures StoreOk(Promoted(s, hhdm, b), hhdm)
  {
    hide FreeList;
    HeadOfList(s, hhdm, b);
    var f := s.lists[b][0];
    var s' := Promoted(s, hhdm, b);
    PlacedOnce(s, hhdm, f, b);
    PromotedList(s, hhdm, b);
    forall c: nat | c < NUM_BUCKETS ensures PartialOk(s', hhdm, c) && ActiveOk(s', hhdm, c) {
      assert PartialOk(s, hhdm, c) && ActiveOk(s, hhdm, c);
      if c != b { assert f !in s.lists[c]; }
    }
    forall g | g in s'.bucketOf ensures SlabOk(s', hhdm, g) && Placed(s', g) {
      assert SlabOk(s, hhdm, g) && Placed(s, g);
      if g == f { HeaderFree(s.m[f], s'.m[f], Pointer(hhdm, f), s.frees[f], b); }
      ElementOfTail(s.lists[b], g);
    }
  }

  lemma PromotedList(s: Store, hhdm: nat, b: nat)
    requires StoreOk(s, hhdm) && b < NUM_BUCKETS && s.lists[b] != []
    ensures PartialOk(Promoted(s, hhdm, b), hhdm, b) && s.lists[b][0] !in s.lists[b][1..]
  {
    hide FreeList, SlabOk, Placed, ActiveOk;
    HeadOfList(s, hhdm, b);
    assert PartialOk(s, hhdm, b);
    var list := s.lists[b];
    assert forall k: nat :: k < |list[1..]| ==> list[1..][k] == list[k + 1];
  }

  lemma ElementOfTail(list: seq<nat>, g: nat)
    requires list != []
    ensures g in list <==> g == list[0] || g in list[1..]
  {
    assert list == [list[0]] + list[1..];
  }

  /** Word 0 is not part of the free list. */
  lemma HeaderFree(f: Frame, f': Frame, base: nat, list: seq<nat>, bucket: nat)
    requires bucket < NUM_BUCKETS && FreeList(f, base, list, bucket)
    requires forall k: nat :: 0 < k < FRAME_WORDS ==> f'[k] == f[k]
    ensures FreeList(f', base, list, bucket)
  {
    hide IsObject, ObjSize, WordAt;
    forall k: nat | k < |list| ensures 2 <= WordAt(list[k]) < FRAME_WORDS {
      ObjectWords(list[k], list[k], bucket);
    }
  }

  /** A new frame, all of whose objects are free, becomes the active slab. */
  lemma AddSlab(s: Store, hhdm: nat, b: nat, f: nat, frame: Frame)
    requires StoreOk(s, hhdm) && b < NUM_BUCKETS && s.current[b] == None
    requires f < |s.m| && f !in s.bucketOf && Pointer(hhdm, f) + FRAME_SIZE <= WORD_LIMIT
    requires FreeList(frame, Pointer(hhdm, f), AllObjects(b), b)
    ensures StoreOk(Added(s, hhdm, b, f, frame), hhdm)
  {
    hide FreeList;
    var s' := Added(s, hhdm, b, f, frame);
    forall c: nat | c < NUM_BUCKETS ensures PartialOk(s', hhdm, c) && ActiveOk(s', hhdm, c) {
      AddedList(s, hhdm, b, f, frame, c);
    }
    forall g | g in s'.bucketOf ensures SlabOk(s', hhdm, g) && Placed(s', g) {
      if g != f { assert SlabOk(s, hhdm, g) && Placed(s, g); }
    }
  }

  lemma AddedList(s: Store, hhdm: nat, b: nat, f: nat, frame: Frame, c: nat)
    requires StoreOk(s, hhdm) && b < NUM_BUCKETS && c < NUM_BUCKETS && s.current[b] == None
    requires f < |s.m| && f !in s.bucketOf && Pointer(hhdm, f) < WORD_LIMIT
    ensures PartialOk(Added(s, hhdm, b, f, frame), hhdm, c) && ActiveOk(Added(s, hhdm, b, f, frame), hhdm, c)
  {
    hide FreeList, SlabOk, Placed, AllObjects;
    assert PartialOk(s, hhdm, c) && ActiveOk(s, hhdm, c);
    assert f !in s.lists[c];
  }

  ghost function Added(s: Store, hhdm: nat, b: nat, f: nat, frame: Frame): Store
    requires f < |s.m| && b < NUM_BUCKETS && b < |s.active| && b < |s.current| && Pointer(hhdm, f) < WORD_LIMIT
  {
    s.(m := s.m[f := frame], active := s.active[b := Pointer(hhdm, f)], current := s.current[b := Some(f)],
       bucketOf := s.bucketOf[f := b], frees := s.frees[f := AllObjects(b)])
  }

  /** A full slab that got an object back goes in front of its partial list. */
  lemma Demote(s: Store, hhdm: nat, f: nat, frame: Frame, list: seq<nat>)
    requires StoreOk(s, hhdm) && f in s.bucketOf && s.frees[f] == [] && s.current[s.bucketOf[f]] != Some(f)
    requires FreeList(frame, Pointer(hhdm, f), list, s.bucketOf[f]) && list != []
    requires frame[0] == s.partial[s.bucketOf[f]]
    ensures StoreOk(Demoted(s, hhdm, f, frame, list), hhdm)
  {
    hide FreeList;
    var b := s.bucketOf[f];
    var s' := Demoted(s, hhdm, f, frame, list);
    assert PartialOk(s, hhdm, b);
    forall c: nat | c < NUM_BUCKETS ensures f !in s.lists[c] {
      if f in s.lists[c] { PlacedOnce(s, hhdm, f, c); }
    }
    forall c: nat | c < NUM_BUCKETS ensures PartialOk(s', hhdm, c) && ActiveOk(s', hhdm, c) {
      if c == b { DemotedList(s, hhdm, f, frame, list); }
      DemotedOthers(s, hhdm, f, frame, list, c);
    }
    forall g | g in s'.bucketOf ensures SlabOk(s', hhdm, g) && Placed(s', g) {
      assert SlabOk(s, hhdm, g) && Placed(s, g);
    }
  }

  lemma DemotedOthers(s: Store, hhdm: nat, f: nat, frame: Frame, list: seq<nat>, c: nat)
    requires StoreOk(s, hhdm) && f in s.bucketOf && c < NUM_BUCKETS && f !in s.lists[c] && list != []
    requires s.current[s.bucketOf[f]] != Some(f)
    ensures ActiveOk(Demoted(s, hhdm, f, frame, list), hhdm, c)
    ensures c != s.bucketOf[f] ==> PartialOk(Demoted(s, hhdm, f, frame, list), hhdm, c)
  {
    hide FreeList, Placed;
    assert PartialOk(s, hhdm, c) && ActiveOk(s, hhdm, c) && SlabOk(s, hhdm, f);
  }

  lemma DemotedList(s: Store, hhdm: nat, f: nat, frame: Frame, list: seq<nat>)
    requires StoreOk(s, hhdm) && f in s.bucketOf && f !in s.lists[s.bucketOf[f]] && list != []
    requires frame[0] == s.partial[s.bucketOf[f]]
    ensures PartialOk(Demoted(s, hhdm, f, frame, list), hhdm, s.bucketOf[f])
  {
    hide FreeList, Placed, ActiveOk;
    var b := s.bucketOf[f];
    assert PartialOk(s, hhdm, b) && SlabOk(s, hhdm, f);
    var s' := Demoted(s, hhdm, f, frame, list);
    assert forall k: nat :: 0 < k < |s'.lists[b]| ==> s'.lists[b][k] == s.lists[b][k - 1];
  }

  ghost function Demoted(s: Store, hhdm: nat, f: nat, frame: Frame, list: seq<nat>): Store
    requires StoreOk(s, hhdm) && f in s.bucketOf
  {
    var b := s.bucketOf[f];
    assert SlabOk(s, hhdm, f);
    s.(m := s.m[f := frame], partial := s.partial[b := Pointer(hhdm, f)], lists := s.lists[b := [f] + s.lists[b]],
       frees := s.frees[f := list])
  }

  /** What happens outside the slabs' frames does not matter. */
  lemma StoreElsewhere(s: Store, hhdm: nat, m': seq<Frame>)
    requires StoreOk(s, hhdm) && |m'| == |s.m| && forall f :: f in s.bucketOf && f < |s.m| ==> m'[f] == s.m[f]
    ensures StoreOk(s.(m := m'), hhdm)
  {
    hide FreeList;
    var s' := s.(m := m');
    forall c: nat | c < NUM_BUCKETS ensures PartialOk(s', hhdm, c) && ActiveOk(s', hhdm, c) {
      assert PartialOk(s, hhdm, c) && ActiveOk(s, hhdm, c);
    }
    forall g | g in s'.bucketOf ensures SlabOk(s', hhdm, g) && Placed(s', g) {
      assert SlabOk(s, hhdm, g) && Placed(s, g);
    }
  }
}

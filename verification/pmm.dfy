/** The buddy allocator of physical frames (kernel/src/mm/pmm.rs).

  `frameOrder`, `freeLists` and the links inside free frames are updated in place.  The ghost
  sequences `lists` name the nodes of each free list in order; the abstract value of the allocator
  is its free set.
 */
module FrameAllocator {
  import opened Alignment
  import opened BuddyTags
  import opened Links
  import opened Memory
  import opened Ranges

  const NUM_ORDERS: nat := MAX_ORDER + 1

  /** Each of the twelve lists is well linked and holds exactly the free blocks of its order. */
  ghost predicate ListsAgree(m: seq<Frame>, hhdm: nat, heads: seq<Word>, lists: seq<seq<nat>>, t: Tags) {
    && |heads| == |lists| == NUM_ORDERS && |t| <= |m|
    && (forall o: nat :: o <= MAX_ORDER ==> Linked(m, hhdm, heads[o], lists[o]))
    && (forall o: nat, f: nat :: o <= MAX_ORDER ==> (f in lists[o] <==> Head(t, f, o)))
  }

  /** Lists of different orders share no node. */
  lemma ListsDisjoint(m: seq<Frame>, hhdm: nat, heads: seq<Word>, lists: seq<seq<nat>>, t: Tags,
                      a: nat, b: nat, f: nat)
    requires ListsAgree(m, hhdm, heads, lists, t) && a <= MAX_ORDER && b <= MAX_ORDER
    requires f in lists[a] && f in lists[b]
    ensures a == b
  {
    assert Head(t, f, a) && Head(t, f, b);
  }

  /** Structure agreement: a frame carries tag `o` exactly when the aligned block of order `o` around
      it is on the list of order `o`; so a tag match at an aligned buddy means it is a list node. */
  lemma TagIffListed(m: seq<Frame>, hhdm: nat, heads: seq<Word>, lists: seq<seq<nat>>, t: Tags, f: nat, o: nat)
    requires ListsAgree(m, hhdm, heads, lists, t) && Good(t) && f < |t| && o <= MAX_ORDER
    ensures t[f] == o <==> Down(f, o) in lists[o]
    ensures t[f] == o ==> Down(f, o) + Pow2(o) <= |t| && Run(Down(f, o), o) <= FreeSet(t)
    ensures Aligned(f, o) && t[f] == o ==> f in lists[o]
    ensures t[f] <= MAX_ORDER || t[f] == ORDER_NONE
  {
    hide Pow2, Down, Interval, Linked;
    DownAligned(f, o);
    var b := Down(f, o);
    assert t[f] != ORDER_NONE ==> TaggedBlock(t, f, t[f]);
    assert b < |t| && t[b] != ORDER_NONE ==> TaggedBlock(t, b, t[b]);
    assert b in lists[o] <==> Head(t, b, o);
  }

  lemma PushAgrees(m: seq<Frame>, hhdm: nat, heads: seq<Word>, lists: seq<seq<nat>>, t: Tags, f: nat, o: nat)
    requires ListsAgree(m, hhdm, heads, lists, t)
    requires o <= MAX_ORDER && Aligned(f, o) && f + Pow2(o) <= |t| && Run(f, o) !! FreeSet(t)
    requires Pointer(hhdm, f) < WORD_LIMIT
    ensures ListsAgree(Pushed(m, hhdm, heads[o], lists[o], f), hhdm, heads[o := Pointer(hhdm, f)],
                       lists[o := [f] + lists[o]], SetRun(t, f, o, o))
  {
    assert f in Run(f, o) && f !in FreeSet(t);
    var m' := Pushed(m, hhdm, heads[o], lists[o], f);
    PushLinks(m, hhdm, heads[o], lists[o], f);
    var heads', lists', t' := heads[o := Pointer(hhdm, f)], lists[o := [f] + lists[o]], SetRun(t, f, o, o);
    forall p: nat | p <= MAX_ORDER ensures Linked(m', hhdm, heads'[p], lists'[p]) {
      if p != o { PushOtherList(m, hhdm, heads, lists, t, f, o, p); }
    }
    forall p: nat, g: nat | p <= MAX_ORDER ensures g in lists'[p] <==> Head(t', g, p) {
      assert g in lists[p] <==> Head(t, g, p);
      PushAddsHead(t, f, o, g, p);
    }
  }

  lemma PushOtherList(m: seq<Frame>, hhdm: nat, heads: seq<Word>, lists: seq<seq<nat>>, t: Tags,
                      f: nat, o: nat, p: nat)
    requires ListsAgree(m, hhdm, heads, lists, t) && o <= MAX_ORDER && p <= MAX_ORDER && p != o
    requires f < |m| && f !in lists[p] && Pointer(hhdm, f) < WORD_LIMIT
    ensures Linked(Pushed(m, hhdm, heads[o], lists[o], f), hhdm, heads[p], lists[p])
  {
    var m' := Pushed(m, hhdm, heads[o], lists[o], f);
    forall k: nat | k < |lists[p]| ensures m'[lists[p][k]] == m[lists[p][k]] {
      var g := lists[p][k];
      assert g in lists[p];
      if g in lists[o] { ListsDisjoint(m, hhdm, heads, lists, t, p, o, g); }
      PushedFrame(m, hhdm, heads[o], lists[o], f, g);
    }
    LinkedFrame(m, m', hhdm, heads[p], lists[p]);
  }

  lemma RemoveAgrees(m: seq<Frame>, hhdm: nat, heads: seq<Word>, lists: seq<seq<nat>>, t: Tags, o: nat, k: nat)
    requires ListsAgree(m, hhdm, heads, lists, t) && Good(t)
    requires o <= MAX_ORDER && k < |lists[o]|
    ensures var f := lists[o][k];
            && f + Pow2(o) <= |t|
            && ListsAgree(Unlinked(m, lists[o], k), hhdm,
                          if k == 0 then heads[o := m[f][1]] else heads,
                          lists[o := Without(lists[o], k)], SetRun(t, f, o, ORDER_NONE))
  {
    var f := lists[o][k];
    assert f in lists[o];
    RemoveKeepsGood(t, f, o);
    var m' := Unlinked(m, lists[o], k);
    RemoveLinks(m, hhdm, heads[o], lists[o], k);
    var heads' := if k == 0 then heads[o := m[f][1]] else heads;
    var lists', t' := lists[o := Without(lists[o], k)], SetRun(t, f, o, ORDER_NONE);
    forall p: nat | p <= MAX_ORDER ensures Linked(m', hhdm, heads'[p], lists'[p]) {
      if p != o { RemoveOtherList(m, hhdm, heads, lists, t, o, k, p); }
    }
    forall p: nat, g: nat | p <= MAX_ORDER ensures g in lists'[p] <==> Head(t', g, p) {
      assert g in lists[p] <==> Head(t, g, p);
      WithoutElements(lists[o], k, g);
    }
  }

  lemma RemoveOtherList(m: seq<Frame>, hhdm: nat, heads: seq<Word>, lists: seq<seq<nat>>, t: Tags,
                        o: nat, k: nat, p: nat)
    requires ListsAgree(m, hhdm, heads, lists, t) && o <= MAX_ORDER && p <= MAX_ORDER && p != o
    requires k < |lists[o]|
    ensures Linked(Unlinked(m, lists[o], k), hhdm, heads[p], lists[p])
  {
    var m' := Unlinked(m, lists[o], k);
    forall j: nat | j < |lists[p]| ensures m'[lists[p][j]] == m[lists[p][j]] {
      var g := lists[p][j];
      assert g in lists[p];
      if g in lists[o] { ListsDisjoint(m, hhdm, heads, lists, t, p, o, g); }
      UnlinkedFrame(m, lists[o], k, g);
    }
    LinkedFrame(m, m', hhdm, heads[p], lists[p]);
  }

  /** List nodes stand in free frames, so writing any other frame keeps the lists. */
  lemma OwnedWrite(m: seq<Frame>, m': seq<Frame>, hhdm: nat, heads: seq<Word>, lists: seq<seq<nat>>, t: Tags, f: nat)
    requires ListsAgree(m, hhdm, heads, lists, t) && f !in FreeSet(t)
    requires |m'| == |m| && forall g: nat :: g < |m| && g != f ==> m'[g] == m[g]
    ensures ListsAgree(m', hhdm, heads, lists, t)
  {
    hide Linked, FreeSet, Good;
    HeadIsFree(t, f);
    forall o: nat | o <= MAX_ORDER ensures Linked(m', hhdm, heads[o], lists[o]) {
      assert f !in lists[o];
      LinkedFrame(m, m', hhdm, heads[o], lists[o]);
    }
  }

  function FrameOf(r: Option<PAddr>): Option<nat> {
    if r.Some? then Some(r.value / FRAME_SIZE) else None
  }

  class Pmm {
    const totalFrames: nat
    const hhdm: nat
    const ram: Ram
    const frameOrder: array<Byte>
    const freeLists: array<Word>
    var freeFrames: nat
    ghost var lists: seq<seq<nat>>

    /** Everything the allocator may write. */
    ghost function Footprint(): set<object> {
      {this, ram, frameOrder, freeLists}
    }

    ghost function Tags(): Tags
      reads frameOrder
    {
      frameOrder[..]
    }

    ghost function Free(): set<nat>
      reads frameOrder
    {
      FreeSet(frameOrder[..])
    }

    /** Sizes that never change, and room for every pointer in a word. */
    ghost predicate Sized()
      reads this, ram
    {
      && frameOrder.Length == totalFrames <= |ram.frames|
      && freeLists.Length == NUM_ORDERS == |lists|
      && 0 < hhdm && Pointer(hhdm, totalFrames) <= WORD_LIMIT
    }

    ghost predicate Structured()
      reads this, ram, frameOrder, freeLists
    {
      Sized() && Good(Tags()) && ListsAgree(ram.frames, hhdm, freeLists[..], lists, Tags())
    }

    ghost predicate Valid()
      reads this, ram, frameOrder, freeLists
    {
      Structured() && freeFrames == |Free()|
    }

    /** Memory outside the frames that are free now is as it was. */
    ghost predicate Kept(before: seq<Frame>)
      reads ram, frameOrder
    {
      SameOutside(before, ram.frames, Free())
    }

    lemma ValidIsGood()
      requires Valid()
      ensures Good(Tags())
    {
    }

    lemma ValidSizes()
      requires Valid()
      ensures |Tags()| == totalFrames <= |ram.frames|
    {
      hide Good, ListsAgree;
    }

    constructor (frameOrder: array<Byte>, totalFrames: nat, hhdm: nat, ram: Ram)
      requires frameOrder.Length == totalFrames <= |ram.frames|
      requires 0 < hhdm && Pointer(hhdm, totalFrames) <= WORD_LIMIT
      modifies frameOrder
      ensures Valid() && Free() == {}
      ensures this.frameOrder == frameOrder && this.totalFrames == totalFrames
      ensures this.hhdm == hhdm && this.ram == ram && fresh(freeLists)
    {
      this.frameOrder, this.totalFrames, this.hhdm, this.ram := frameOrder, totalFrames, hhdm, ram;
      freeLists := new Word[NUM_ORDERS](_ => 0);
      freeFrames := 0;
      lists := seq(NUM_ORDERS, _ => []);
      new;
      for i := 0 to totalFrames
        invariant forall g: nat :: g < i ==> frameOrder[g] == ORDER_NONE
        invariant forall o: nat :: o < NUM_ORDERS ==> freeLists[o] == 0
        modifies frameOrder
      {
        frameOrder[i] := ORDER_NONE;
      }
      assert Free() == {};
    }

    function BlockToFrame(block: Word): nat
      requires hhdm <= block
    {
      (block - hhdm) / FRAME_SIZE
    }

    method SetBlockOrder(frame: nat, order: nat, value: Byte)
      requires frame + Pow2(order) <= frameOrder.Length
      modifies frameOrder
      ensures Tags() == SetRun(old(Tags()), frame, order, value)
    {
      ghost var before := frameOrder[..];
      for i := 0 to Pow2(order)
        invariant forall g: nat :: g < frameOrder.Length ==>
                    frameOrder[g] == if frame <= g < frame + i then value else before[g]
      {
        frameOrder[frame + i] := value;
      }
    }

    /** The check behind `assert_block_unused`. */
    method BlockUnused(frame: nat, order: nat) returns (unused: bool)
      requires frame + Pow2(order) <= frameOrder.Length
      ensures unused <==> Run(frame, order) !! Free()
    {
      for i := 0 to Pow2(order)
        invariant forall g: nat :: frame <= g < frame + i ==> g !in Free()
      {
        if frameOrder[frame + i] != ORDER_NONE {
          assert frame + i in Run(frame, order) && frame + i in Free();
          return false;
        }
      }
      return true;
    }

    /** Writes the node at `frame` and hooks it in front of the list of `order`. */
    method LinkNode(frame: nat, order: nat)
      requires Structured() && order <= MAX_ORDER && frame < totalFrames
      modifies ram, freeLists
      ensures ram.frames == Pushed(old(ram.frames), hhdm, old(freeLists[order]), lists[order], frame)
      ensures freeLists[..] == old(freeLists[..])[order := Pointer(hhdm, frame)]
    {
      assert Linked(ram.frames, hhdm, freeLists[order], lists[order]);
      var head := freeLists[order];
      ram.Store(frame, 0, 0);
      ram.Store(frame, 1, head);
      if head != 0 {
        ram.Store(BlockToFrame(head), 0, Pointer(hhdm, frame));
      }
      freeLists[order] := Pointer(hhdm, frame);
    }

    /** Hooks out the k-th node of the list of `order`. */
    method UnlinkNode(frame: nat, order: nat, ghost k: nat)
      requires Structured() && order <= MAX_ORDER && k < |lists[order]| && lists[order][k] == frame
      modifies ram, freeLists
      ensures ram.frames == Unlinked(old(ram.frames), lists[order], k)
      ensures freeLists[..] == if k == 0 then old(freeLists[..])[order := old(ram.frames)[frame][1]]
                               else old(freeLists[..])
    {
      assert Linked(ram.frames, hhdm, freeLists[order], lists[order]);
      assert LinkedAt(ram.frames, hhdm, lists[order], k);
      var prev, next := ram.frames[frame][0], ram.frames[frame][1];
      if prev != 0 {
        ram.Store(BlockToFrame(prev), 1, next);
      } else {
        freeLists[order] := next;
      }
      if next != 0 {
        ram.Store(BlockToFrame(next), 0, prev);
      }
    }

    method ListPush(frame: nat, order: nat)
      requires Structured() && order <= MAX_ORDER
      requires Aligned(frame, order) && frame + Pow2(order) <= totalFrames
      requires Run(frame, order) !! Free()
      requires order < MAX_ORDER ==> !Head(Tags(), Buddy(frame, order), order)
      modifies this`lists, ram, frameOrder, freeLists
      ensures Structured() && Kept(old(ram.frames))
      ensures Tags() == SetRun(old(Tags()), frame, order, order)
      ensures Free() == old(Free()) + Run(frame, order)
    {
      hide Pow2, Down, Interval, Good;
      ghost var m, heads := ram.frames, freeLists[..];
      PushKeepsGood(Tags(), frame, order);
      PushAgrees(m, hhdm, heads, lists, Tags(), frame, order);
      var unused := BlockUnused(frame, order);
      assert unused;
      LinkNode(frame, order);
      lists := lists[order := [frame] + lists[order]];
      SetBlockOrder(frame, order, order);
      forall g: nat | g < |m| && g !in Free() ensures ram.frames[g] == m[g] {
        assert frame in Run(frame, order);
        PushedFrame(m, hhdm, heads[order], old(lists)[order], frame, g);
      }
    }

    method ListRemove(frame: nat, order: nat)
      requires Structured() && Head(Tags(), frame, order)
      modifies this`lists, ram, frameOrder, freeLists
      ensures Structured() && Kept(old(ram.frames))
      ensures frame + Pow2(order) <= totalFrames
      ensures Tags() == SetRun(old(Tags()), frame, order, ORDER_NONE)
      ensures Free() == old(Free()) - Run(frame, order) && Run(frame, order) <= old(Free())
    {
      hide Pow2, Down, Interval, Good;
      ghost var m := ram.frames;
      RemoveKeepsGood(Tags(), frame, order);
      assert frame in lists[order];
      ghost var k: nat :| k < |lists[order]| && lists[order][k] == frame;
      RemoveAgrees(m, hhdm, freeLists[..], lists, Tags(), order, k);
      UnlinkNode(frame, order, k);
      lists := lists[order := Without(lists[order], k)];
      SetBlockOrder(frame, order, ORDER_NONE);
      forall g: nat | g < |m| && g !in Free() ensures ram.frames[g] == m[g] {
        UnlinkedFrame(m, old(lists)[order], k, g);
      }
    }

    /** Hands the upper halves of the block at `frame` back until it has order `order`. */
    method Split(frame: nat, current: nat, order: nat)
      requires Structured() && order <= current <= MAX_ORDER
      requires Aligned(frame, current) && frame + Pow2(current) <= totalFrames
      requires Run(frame, current) !! Free()
      modifies this`lists, ram, frameOrder, freeLists
      ensures Structured() && Kept(old(ram.frames)) && Aligned(frame, order)
      ensures Free() == old(Free()) + (Run(frame, current) - Run(frame, order))
    {
      hide Pow2, Down, Interval, FreeSet, Good, ListsAgree, SameOutside;
      var o := current;
      SameOutsideSelf(ram.frames, Free());
      while o > order
        invariant order <= o <= current && Structured() && Kept(old(ram.frames))
        invariant Aligned(frame, o) && frame + Pow2(o) <= totalFrames
        invariant Run(frame, o) <= Run(frame, current)
        invariant Free() == old(Free()) + (Run(frame, current) - Run(frame, o))
      {
        o := o - 1;
        AlignedHalves(frame, o);
        Pow2Next(o);
        SplitSets(frame, current, o, old(Free()));
        HeadIsFree(Tags(), frame);
        var buddy := frame + Pow2(o);
        ghost var m, free := ram.frames, Free();
        ListPush(buddy, o);
        SameOutsideTrans(old(ram.frames), m, ram.frames, free, Free(), Free());
      }
    }

    /** `None` exactly when no aligned run of 2^order frames is free; otherwise a free run of a
        block of the smallest order that has one. */
    method AllocPages(order: nat) returns (r: Option<PAddr>)
      requires Valid() && order <= MAX_ORDER
      modifies this, ram, frameOrder, freeLists
      ensures Valid() && Kept(old(ram.frames))
      ensures Allocates(old(Tags()), Tags(), order, FrameOf(r))
      ensures r.None? ==> ram.frames == old(ram.frames) && lists == old(lists)
      ensures r.Some? ==>
                var f := r.value / FRAME_SIZE;
                && r.value == f * FRAME_SIZE && f + Pow2(order) <= totalFrames
                && order <= old(Tags())[f]
                && forall g: nat, p: nat :: Head(old(Tags()), g, p) && order <= p ==> old(Tags())[f] <= p
    {
      hide Pow2, Down, Interval, FreeSet, Good;
      ghost var t := Tags();
      LargeBlockIffRun(t, order);
      var current := order;
      while current <= MAX_ORDER
        invariant order <= current && Valid()
        invariant Tags() == t && ram.frames == old(ram.frames) && lists == old(lists)
        invariant forall g: nat, p: nat :: Head(t, g, p) && order <= p ==> current <= p
      {
        assert Linked(ram.frames, hhdm, freeLists[current], lists[current]);
        var head := freeLists[current];
        if head != 0 {
          var frame := BlockToFrame(head);
          assert frame == lists[current][0];
          assert Head(t, frame, current);
          TakeBlock(frame, current, order);
          return Some(frame * FRAME_SIZE);
        }
        assert forall g: nat :: Head(t, g, current) <==> g in lists[current];
        current := current + 1;
      }
      return None;
    }

    /** The body of the search once a list is found non-empty. */
    method TakeBlock(frame: nat, current: nat, order: nat)
      requires Valid() && order <= current && Head(Tags(), frame, current)
      modifies this, ram, frameOrder, freeLists
      ensures Valid() && Kept(old(ram.frames))
      ensures Aligned(frame, order) && frame + Pow2(order) <= totalFrames
      ensures Run(frame, order) <= old(Free())
      ensures Becomes(old(Tags()), Tags(), old(Free()) - Run(frame, order))
    {
      hide Pow2, Down, Interval, Run, FreeSet, Good, ListsAgree, SameOutside;
      ghost var free := Free();
      Pow2Monotone(order, current);
      RunGrows(frame, order, current);
      RunSize(frame, order);
      ListRemove(frame, current);
      ghost var m, rest := ram.frames, Free();
      Split(frame, current, order);
      SameOutsideTrans(old(ram.frames), m, ram.frames, rest, Free(), Free());
      TakeSets(free, Run(frame, current), Run(frame, order));
      freeFrames := freeFrames - Pow2(order);
    }

    /** Gives a block back; merging never fails because a tag match at a buddy means the buddy is
        itself a list node. */
    method FreePages(addr: PAddr, order: nat)
      requires Valid() && order <= MAX_ORDER && addr % FRAME_SIZE == 0
      requires addr / FRAME_SIZE + Pow2(order) <= totalFrames && Aligned(addr / FRAME_SIZE, order)
      requires Run(addr / FRAME_SIZE, order) !! Free()
      modifies this, ram, frameOrder, freeLists
      ensures Valid() && Kept(old(ram.frames))
      ensures Releases(old(Tags()), Tags(), addr / FRAME_SIZE, order)
    {
      hide Pow2, Down, Interval, Run, FreeSet, Good, ListsAgree, SameOutside, Xor, AndNot;
      var frame: nat := addr / FRAME_SIZE;
      InOwnRun(frame, order);
      UnusedTag(Tags(), frame);
      assert frameOrder[frame] == ORDER_NONE;
      var unused := BlockUnused(frame, order);
      assert unused;

      var o := order;
      RunSize(frame, order);
      freeFrames := freeFrames + Pow2(order);
      ghost var free := Free() + Run(frame, order);
      SameOutsideSelf(ram.frames, free);
      while o < MAX_ORDER
        invariant order <= o <= MAX_ORDER && Structured() && SameOutside(old(ram.frames), ram.frames, free)
        invariant Aligned(frame, o) && frame + Pow2(o) <= totalFrames
        invariant Run(frame, o) !! Free() && Free() + Run(frame, o) == free
        invariant freeFrames == |free|
      {
        XorIsBuddy(frame, o);
        var buddy := Xor(frame, Pow2(o));
        if buddy >= totalFrames || frameOrder[buddy] != o {
          break;
        }
        assert Head(Tags(), buddy, o);
        MergedRun(frame, o);
        DownAligned(frame, o + 1);
        Pow2Next(o);
        MergeSets(Free(), Run(frame, o), Run(buddy, o));
        ghost var m := ram.frames;
        ListRemove(buddy, o);
        SameOutsideTrans(old(ram.frames), m, ram.frames, free, Free(), free);
        frame := AndNot(frame, Pow2(o));
        o := o + 1;
      }
      ghost var m := ram.frames;
      ListPush(frame, o);
      SameOutsideTrans(old(ram.frames), m, ram.frames, free, Free(), free);
    }

    /** Adds exactly the frames from `start` up to `start + count`, one aligned block at a time. */
    method AddRange(start: nat, count: nat) returns (ghost calls: nat)
      requires Valid() && start + count <= totalFrames && Range(start, count) !! Free()
      modifies this, ram, frameOrder, freeLists
      ensures Valid() && Kept(old(ram.frames))
      ensures Adds(old(Tags()), Tags(), start, count)
      ensures calls == |Chunks(start, count)| <= count / 2048 + 22
    {
      hide Pow2, Down, Range, Run, FreeSet, Good, ListsAgree, SameOutside, ChunkOrder, Chunks, Structured, Valid;
      ChunksAreFew(start, count);
      calls := 0;
      ghost var goal := Free() + Range(start, count);
      var s: nat, n: nat := start, count;
      SameOutsideSelf(ram.frames, Free());
      while n > 0
        invariant Valid() && SameOutside(old(ram.frames), ram.frames, Free())
        invariant s + n <= totalFrames && Range(s, n) !! Free()
        invariant goal == Free() + Range(s, n)
        invariant calls + |Chunks(s, n)| == |Chunks(start, count)|
      {
        var order := ChunkOrder(s, n);
        ChunksStep(s, n);
        RangeSets(s, n, order, Free());
        ghost var m, free := ram.frames, Free();
        FrameOfAddress(s);
        FreePages(s * FRAME_SIZE, order);
        SameOutsideTrans(old(ram.frames), m, ram.frames, free, Free(), Free());
        var block := Pow2(order);
        s, n, calls := s + block, n - block, calls + 1;
      }
      EmptyRange(s);
      ValidIsGood();
    }

    /** A frame's owner writes a word of it: the allocator does not notice. */
    method StoreOwned(f: nat, i: nat, w: Word)
      requires Valid() && f < |ram.frames| && i < FRAME_WORDS && f !in Free()
      modifies ram
      ensures Valid()
      ensures ram.frames == old(ram.frames)[f := old(ram.frames)[f][i := w]]
    {
      hide FreeSet, Good, ListsAgree;
      ghost var m := ram.frames;
      ram.Store(f, i, w);
      OwnedWrite(m, ram.frames, hhdm, freeLists[..], lists, Tags(), f);
    }

    /** A frame's owner zeroes it. */
    method ZeroOwned(f: nat)
      requires Valid() && f < |ram.frames| && f !in Free()
      modifies ram
      ensures Valid() && ram.frames == old(ram.frames)[f := ZERO_FRAME]
    {
      hide FreeSet, Good, ListsAgree;
      ghost var m := ram.frames;
      ram.Zero(f);
      OwnedWrite(m, ram.frames, hhdm, freeLists[..], lists, Tags(), f);
    }

    /** `alloc_frame`: fails exactly when nothing is free. */
    method AllocFrame() returns (r: Option<PAddr>)
      requires Valid()
      modifies Footprint()
      ensures Valid() && Kept(old(ram.frames)) && |ram.frames| == |old(ram.frames)|
      ensures r.None? <==> old(Free()) == {}
      ensures r.None? ==> Tags() == old(Tags()) && ram.frames == old(ram.frames)
      ensures r.Some? ==> r.value % FRAME_SIZE == 0 && TakesFrame(old(Tags()), Tags(), r.value / FRAME_SIZE)
    {
      hide Pow2, Down, FreeSet, Good, ListsAgree, Run;
      r := AllocPages(0);
      OneFrameRuns(old(Free()));
      if r.Some? { SingleFrame(r.value / FRAME_SIZE); }
    }

    /** `free_frame`. */
    method FreeFrame(addr: PAddr)
      requires Valid() && addr % FRAME_SIZE == 0 && addr / FRAME_SIZE < totalFrames
      requires addr / FRAME_SIZE !in Free()
      modifies Footprint()
      ensures Valid() && Kept(old(ram.frames)) && |ram.frames| == |old(ram.frames)|
      ensures Becomes(old(Tags()), Tags(), old(Free()) + {addr / FRAME_SIZE})
    {
      hide Pow2, Down, FreeSet, Good, ListsAgree, Run;
      SingleFrame(addr / FRAME_SIZE);
      FreePages(addr, 0);
    }
  }

  /** One frame `f` leaves the free set. */
  ghost predicate TakesFrame(t: Tags, t': Tags, f: nat) {
    f < |t| && f in FreeSet(t) && Becomes(t, t', FreeSet(t) - {f})
  }

  lemma SingleFrame(f: nat)
    ensures Run(f, 0) == {f} && Aligned(f, 0) && Pow2(0) == 1
  {
  }

  lemma OneFrameRuns(free: set<nat>)
    ensures free == {} <==> forall f: nat :: Aligned(f, 0) ==> !(Run(f, 0) <= free)
  {
    forall f: nat ensures Aligned(f, 0) && Run(f, 0) == {f} { SingleFrame(f); }
    if free != {} {
      var f :| f in free;
      assert Run(f, 0) <= free;
    }
  }

  /** The frames accounted for while splitting, before and after the upper half is handed back. */
  lemma SplitSets(f: nat, current: nat, o: nat, before: set<nat>)
    requires Run(f, o + 1) <= Run(f, current) && Run(f, current) !! before
    ensures var free := before + (Run(f, current) - Run(f, o + 1));
            && Run(f + Pow2(o), o) !! free && f !in free
            && free + Run(f + Pow2(o), o) == before + (Run(f, current) - Run(f, o))
            && Run(f, o) <= Run(f, current)
  {
    hide Pow2, Interval;
    RunHalves(f, o);
    assert f in Run(f, o + 1) && f in Run(f, o);
  }

  lemma RangeSets(start: nat, count: nat, o: nat, free: set<nat>)
    requires Pow2(o) <= count && Range(start, count) !! free
    ensures var rest := Range(start + Pow2(o), count - Pow2(o));
            && Run(start, o) !! free && rest !! free + Run(start, o)
            && free + Run(start, o) + rest == free + Range(start, count)
  {
    hide Pow2, Interval;
    assert Range(start, count) == Run(start, o) + Range(start + Pow2(o), count - Pow2(o));
  }

  lemma EmptyRange(start: nat)
    ensures Range(start, 0) == {} && Chunks(start, 0) == []
  {
  }

  lemma RunGrows(f: nat, a: nat, b: nat)
    requires a <= b
    ensures Run(f, a) <= Run(f, b)
  {
    hide Pow2, Interval;
    Pow2Monotone(a, b);
  }

  lemma TakeSets(free: set<nat>, big: set<nat>, small: set<nat>)
    requires small <= big <= free
    ensures free - big + (big - small) == free - small
    ensures |free - small| == |free| - |small|
  {
  }

  lemma UnusedTag(t: Tags, f: nat)
    requires f < |t| && f !in FreeSet(t)
    ensures t[f] == ORDER_NONE
  {
  }

  lemma MergeSets(free: set<nat>, mine: set<nat>, buddy: set<nat>)
    ensures buddy <= free && mine !! free && mine !! buddy ==>
              (free - buddy) + (mine + buddy) == free + mine && (mine + buddy) !! (free - buddy)
  {
  }

  lemma MergedRun(f: nat, o: nat)
    requires Aligned(f, o)
    ensures Run(Down(f, o + 1), o + 1) == Run(f, o) + Run(Buddy(f, o), o)
    ensures Run(f, o) !! Run(Buddy(f, o), o)
  {
    hide Pow2, Interval, Down;
    RunHalves(Down(f, o + 1), o);
  }

  lemma InOwnRun(f: nat, o: nat)
    ensures f in Run(f, o)
  {
  }

  lemma RunHalves(f: nat, o: nat)
    ensures Run(f, o + 1) == Run(f, o) + Run(f + Pow2(o), o)
    ensures Run(f, o) !! Run(f + Pow2(o), o)
  {
    hide Pow2, Interval;
    Pow2Next(o);
  }
}

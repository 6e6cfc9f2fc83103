/** Taking over the boot loader's page tables (kernel/src/mm/vmm.rs:437-498). */
module Cloning {
  import opened BuddyTags
  import opened Memory
  import opened FrameAllocator
  import opened Entries
  import opened Tables
  import opened Views
  import opened VmmSpec
  import opened VirtualMemory
  import opened CloneSpec

  /** `free_cloned_table`: exactly the frames of the tree become free. */
  method FreeClonedTable(pmm: Pmm, ghost p: Path, t: nat, level: nat, ghost dst: TableMap)
    requires pmm.Valid() && TreeAt(pmm.ram.frames, dst, p) && t == dst[p] && level == Level(p)
    requires dst.Values !! pmm.Free() && forall q :: q in dst ==> dst[q] < pmm.totalFrames
    modifies pmm.Footprint()
    ensures pmm.Valid() && pmm.Kept(old(pmm.ram.frames))
    ensures Becomes(old(pmm.Tags()), pmm.Tags(), old(pmm.Free()) + dst.Values)
    decreases level
  {
    hide Good, FreeSet, Present, PageFlag, Target, SameOutside, Pmm.Valid, Pmm.Structured, Restrict, FramesBelow, Depth, InPart, Hangs, SmallIndices, Injective;
    ghost var m0, free0 := pmm.ram.frames, pmm.Free();
    FramesBelowAll(m0, dst, p);
    SameOutsideSelf(m0, free0);
    pmm.ValidIsGood();
    for i := 0 to FRAME_WORDS
      invariant pmm.Valid() && SameOutside(m0, pmm.ram.frames, pmm.Free())
      invariant Becomes(old(pmm.Tags()), pmm.Tags(), free0 + FramesBelow(dst, p, i))
    {
      TreeOwned(m0, pmm.ram.frames, dst, p, i, free0, pmm.Free());
      var entry := pmm.ram.frames[t][i];
      FramesBelowStep(m0, dst, p, i);
      if Present(entry) && !(level == 0 || (level <= 2 && PageFlag(entry))) {
        ghost var m, free := pmm.ram.frames, pmm.Free();
        ChildOwned(m0, m, dst, p, i, free);
        FreeClonedTable(pmm, Sub(p, i), Target(entry), level - 1, Restrict(dst, Sub(p, i)));
        SameOutsideTrans(m0, m, pmm.ram.frames, free, pmm.Free(), pmm.Free());
      } else {
        NoChild(m0, dst, p, i);
      }
    }
    TreeOwned(m0, pmm.ram.frames, dst, p, FRAME_WORDS, free0, pmm.Free());
    ghost var m, free := pmm.ram.frames, pmm.Free();
    FrameOfAddress(t);
    pmm.FreeFrame(t * FRAME_SIZE);
    SameOutsideTrans(m0, m, pmm.ram.frames, free, pmm.Free(), pmm.Free());
  }

  /** The table being freed is still owned and still reads as it did. */
  lemma TreeOwned(m0: seq<Frame>, m: seq<Frame>, dst: TableMap, p: Path, i: nat, free0: set<nat>, free: set<nat>)
    requires TreeAt(m0, dst, p) && dst.Values !! free0 && free == free0 + FramesBelow(dst, p, i) && i <= FRAME_WORDS
    requires SameOutside(m0, m, free)
    ensures dst[p] !in free && dst[p] < |m| && m[dst[p]] == m0[dst[p]]
  {
    hide Present, PageFlag, Target, Depth, Hangs, InPart;
    assert dst[p] in dst.Values;
  }

  lemma ChildOwned(m0: seq<Frame>, m: seq<Frame>, dst: TableMap, p: Path, i: nat, free: set<nat>)
    requires TreeAt(m0, dst, p) && i < FRAME_WORDS && Inner(Level(p), m0[dst[p]][i])
    requires SameOutside(m0, m, free) && Restrict(dst, Sub(p, i)).Values !! free
    ensures Sub(p, i) in dst && Target(m0[dst[p]][i]) == dst[Sub(p, i)] && Depth(Sub(p, i)) == Depth(p) + 1
    ensures TreeAt(m, Restrict(dst, Sub(p, i)), Sub(p, i))
    ensures Sub(p, i) in Restrict(dst, Sub(p, i))
    ensures forall q :: q in Restrict(dst, Sub(p, i)) ==> q in dst && Restrict(dst, Sub(p, i))[q] == dst[q]
  {
    hide Present, PageFlag, Target;
    var c := Sub(p, i);
    assert c in dst && Hangs(m0, dst, c);
    var sub := Restrict(dst, c);
    forall q | q in sub ensures m[sub[q]] == m0[sub[q]] {
      assert sub[q] in sub.Values;
    }
    TreeAtChild(m0, m, dst, p, i);
  }

  lemma NoChild(m: seq<Frame>, dst: TableMap, p: Path, i: nat)
    requires TreeAt(m, dst, p) && i < FRAME_WORDS && !Inner(Level(p), m[dst[p]][i])
    ensures Restrict(dst, Sub(p, i)).Values == {}
  {
    hide Present, PageFlag, Target, Depth;
    var c := Sub(p, i);
    assert c !in dst by {
      PathNotOwnChild(p, i);
      assert c in dst ==> Hangs(m, dst, c);
    }
    forall q | q in dst ensures !InPart(q, c, FRAME_WORDS) {
      if InPart(q, c, FRAME_WORDS) { AncestorInTree(m, dst, p, q, c); }
    }
    assert Restrict(dst, c) == map[];
  }

  lemma {:induction false} AncestorInTree(m: seq<Frame>, dst: TableMap, p: Path, q: Path, c: Path)
    requires TreeAt(m, dst, p) && q in dst && InPart(q, c, FRAME_WORDS) && c.Sub? && c.parent == p
    ensures c in dst
    decreases q
  {
    hide Present, PageFlag, Target;
    if q != c {
      if q == p { PartDepth(p, c, FRAME_WORDS); }
      assert q != p;
      assert Hangs(m, dst, q);
      if q.parent != c { AncestorInTree(m, dst, p, q.parent, c); }
    }
  }

  // ---------------------------------------------------------------- clone_table

  /** The source lies in memory the allocator does not hand out; sharing of tables is allowed. */
  ghost predicate SourceOwned(m: seq<Frame>, src: TableMap, t: Tags) {
    Shaped(m, src) && src.Values !! FreeSet(t) && |t| <= |m| && |t| <= ADDRESS_FRAMES
  }

  /** From memory `m0` with tags `t0`, the tables below the first `i` slots of `p` are copied into
      frames taken from the free set, and nothing but such frames was written. */
  ghost predicate Copying(m0: seq<Frame>, t0: Tags, src: TableMap, m: seq<Frame>, t: Tags, dst: TableMap, p: Path, i: nat) {
    && SourceOwned(m0, src, t0) && p in src && p in dst && i <= FRAME_WORDS && Cloned(m0, src, m, dst, p, i)
    && SameOutside(m0, m, FreeSet(t0)) && dst.Values <= FreeSet(t0)
    && Becomes(t0, t, FreeSet(t0) - dst.Values)
  }

  lemma CopyingStart(m0: seq<Frame>, t0: Tags, src: TableMap, m: seq<Frame>, t: Tags, p: Path, c: nat)
    requires SourceOwned(m0, src, t0) && p in src && TakesFrame(t0, t, c) && c < |m|
    requires SameOutside(m0, m, FreeSet(t0)) && m[c] == ZERO_FRAME
    ensures Copying(m0, t0, src, m, t, map[p := c], p, 0)
  {
    hide Good, FreeSet, Present, PageFlag, Target, SameOutside, Attached, CopyOf;
    var dst := map[p := c];
    assert dst[p] == c && forall x :: x in dst.Values ==> x == c;
    assert dst.Values == {c};
    forall q ensures q in dst <==> q in src && InPart(q, p, 0) { PartZero(q, p); }
  }

  lemma CopyFrames(m0: seq<Frame>, t0: Tags, src: TableMap, m: seq<Frame>, t: Tags, dst: TableMap, p: Path, i: nat, q: Path)
    requires Copying(m0, t0, src, m, t, dst, p, i) && q in dst
    ensures dst[q] !in FreeSet(t) && dst[q] < |t|
  {
    hide Good, SameOutside, Attached, CopyOf, Shaped, InPart;
    assert dst[q] in dst.Values;
  }

  /** The source reads as it did. */
  lemma SourceReads(m0: seq<Frame>, t0: Tags, src: TableMap, m: seq<Frame>, t: Tags, dst: TableMap, p: Path, i: nat)
    requires Copying(m0, t0, src, m, t, dst, p, i)
    ensures Agree(m0, m, src) && SourceOwned(m, src, t)
  {
    hide Good, FreeSet, Attached, CopyOf, Shaped, InPart, Cloned;
    forall q | q in src ensures src[q] !in FreeSet(t0) {
      assert src[q] in src.Values;
    }
    AgreeKeeps(m0, m, src);
  }

  /** Allocator activity does not disturb the copy. */
  lemma CopyingKeeps(m0: seq<Frame>, t0: Tags, src: TableMap, m: seq<Frame>, t: Tags, dst: TableMap, p: Path, i: nat,
                     m': seq<Frame>)
    requires Copying(m0, t0, src, m, t, dst, p, i) && SameOutside(m, m', FreeSet(t))
    ensures Copying(m0, t0, src, m', t, dst, p, i) && Agree(m, m', dst)
  {
    hide Good, FreeSet, Attached, CopyOf, Shaped, InPart;
    forall q | q in dst ensures dst[q] !in FreeSet(t) {
      assert dst[q] in dst.Values;
    }
    assert Agree(m, m', dst);
    SameOutsideTrans(m0, m, m', FreeSet(t0), FreeSet(t), FreeSet(t0));
    assert forall q, k: nat :: q in dst && k < FRAME_WORDS ==> m'[dst[q]][k] == m[dst[q]][k];
  }

  /** Slot `i` is done: `below` was copied into frames still free before, then the slot was written. */
  lemma CopyingStep(m0: seq<Frame>, t0: Tags, src: TableMap, m: seq<Frame>, t: Tags, dst: TableMap, p: Path, i: nat,
                    m': seq<Frame>, t': Tags, below: TableMap, w: Word)
    requires Copying(m0, t0, src, m, t, dst, p, i) && i < FRAME_WORDS
    requires SameOutside(m, m', FreeSet(t)) && below.Values <= FreeSet(t)
    requires Becomes(t, t', FreeSet(t) - below.Values)
    requires Cloned(m0, src, m', below, Sub(p, i), FRAME_WORDS) && dst[p] < |m'|
    requires CopyOf(Level(p), Slot(m0, src, p, i), w, dst + below, Sub(p, i))
    ensures Copying(m0, t0, src, Written(m', dst[p], i, w), t', dst + below, p, i + 1)
    ensures p in dst + below && (dst + below)[p] == dst[p]
  {
    hide Good, FreeSet, Attached, CopyOf, Shaped, InPart, Injective;
    CopyingKeeps(m0, t0, src, m, t, dst, p, i, m');
    CloneStep(m0, src, m, dst, p, i, m', below, w);
    assert dst[p] in dst.Values;
    forall q | q in src ensures SmallIndices(q) { TablePathsAreSmall(m0, src, q); }
    ValuesOfSum(dst, below, p, i, src);
    assert SameOutside(m0, Written(m', dst[p], i, w), FreeSet(t0));
  }

  lemma ValuesOfSum(dst: TableMap, below: TableMap, p: Path, i: nat, src: TableMap)
    requires p in dst && i < FRAME_WORDS
    requires forall q :: q in dst <==> q in src && InPart(q, p, i)
    requires forall q :: q in below <==> q in src && InPart(q, Sub(p, i), FRAME_WORDS)
    requires forall q :: q in dst + below <==> q in src && InPart(q, p, i + 1)
    requires forall q :: q in src ==> SmallIndices(q)
    ensures (dst + below).Values == dst.Values + below.Values && (dst + below)[p] == dst[p]
  {
    hide InPart;
    forall q | q in dst ensures q !in below {
      PartStep(q, p, i);
    }
    var all := dst + below;
    forall x | x in dst.Values ensures x in all.Values {
      var q :| q in dst && dst[q] == x;
      assert all[q] == x;
    }
    forall x | x in below.Values ensures x in all.Values {
      var q :| q in below && below[q] == x;
      assert all[q] == x;
    }
  }

  /** One turn of the loop of `clone_table`; `false` when a frame ran out below, with the frames
      taken below given back. */
  method CloneEntry(pmm: Pmm, ghost p: Path, level: nat, srcTable: nat, copy: nat, i: nat,
                    ghost src: TableMap, ghost m0: seq<Frame>, ghost t0: Tags, ghost dst: TableMap)
    returns (done: bool, ghost dst': TableMap)
    requires pmm.Valid() && Copying(m0, t0, src, pmm.ram.frames, pmm.Tags(), dst, p, i) && i < FRAME_WORDS
    requires level == Level(p) && srcTable == src[p] && copy == dst[p]
    modifies pmm.Footprint()
    ensures pmm.Valid()
    ensures done ==> Copying(m0, t0, src, pmm.ram.frames, pmm.Tags(), dst', p, i + 1) && p in dst' && dst'[p] == copy
    ensures !done ==> Copying(m0, t0, src, pmm.ram.frames, pmm.Tags(), dst, p, i)
    ensures !done ==> |FreeSet(t0)| < |Part(src, p, FRAME_WORDS)|
    decreases level, 0
  {
    hide Good, FreeSet, Present, PageFlag, Target, SameOutside, Pmm.Valid, Pmm.Structured, Shaped, Cloned, InPart, Copying, FlagBits, Part;
    ghost var m, t := pmm.ram.frames, pmm.Tags();
    EntryFacts(m0, t0, src, m, t, dst, p, i);
    var entry := pmm.ram.frames[srcTable][i];
    if !(Present(entry) && !(level == 0 || (level <= 2 && PageFlag(entry)))) {
      dst' := dst;
      CopyingPlain(m0, t0, src, m, t, dst, p, i);
      if Present(entry) { pmm.StoreOwned(copy, i, entry); }
      return true, dst';
    }
    var child, below := CloneTable(pmm, Sub(p, i), level - 1, Target(entry), src);
    if child.None? {
      TooFewFrames(m0, t0, src, m, t, dst, p, i);
      CopyingKeeps(m0, t0, src, m, t, dst, p, i, pmm.ram.frames);
      return false, dst;
    }
    ChildCopied(m0, t0, src, m, t, dst, p, i, pmm.ram.frames, pmm.Tags(), below);
    var w := MakeEntry(child.value, FlagBits(entry));
    CopyingChild(m0, t0, src, m, t, dst, p, i, pmm.ram.frames, pmm.Tags(), below, w);
    pmm.StoreOwned(copy, i, w);
    return true, dst + below;
  }

  /** `clone_table`: a copy with fresh frames of exactly the source's tables, or no change at all. */
  method CloneTable(pmm: Pmm, ghost p: Path, level: nat, srcTable: nat, ghost src: TableMap)
    returns (r: Option<nat>, ghost dst: TableMap)
    requires pmm.Valid() && SourceOwned(pmm.ram.frames, src, pmm.Tags())
    requires p in src && Depth(p) <= TOP_LEVEL && level == Level(p) && srcTable == src[p]
    modifies pmm.Footprint()
    ensures pmm.Valid() && SameOutside(old(pmm.ram.frames), pmm.ram.frames, old(pmm.Free()))
    ensures r.None? <==> old(|pmm.Free()|) < |Part(src, p, FRAME_WORDS)|
    ensures r.None? ==> pmm.Tags() == old(pmm.Tags())
    ensures r.Some? ==>
              && Copying(old(pmm.ram.frames), old(pmm.Tags()), src, pmm.ram.frames, pmm.Tags(), dst, p, FRAME_WORDS)
              && r.value == dst[p]
    decreases level, 1
  {
    hide Good, FreeSet, Present, PageFlag, Target, SameOutside, Pmm.Valid, Pmm.Structured, Shaped, Cloned, InPart, Copying, Part;
    ghost var m0, t0 := pmm.ram.frames, pmm.Tags();
    dst := map[];
    pmm.ValidIsGood();
    var frame := pmm.AllocFrame();
    if frame.None? {
      SameOutsideSelf(m0, FreeSet(t0));
      PartNotEmpty(src, p, FRAME_WORDS);
      return None, dst;
    }
    var copy := frame.value / FRAME_SIZE;
    ghost var m := pmm.ram.frames;
    pmm.ZeroOwned(copy);
    ZeroedFrame(m0, m, pmm.ram.frames, FreeSet(t0), pmm.Free(), copy);
    CopyingStart(m0, t0, src, pmm.ram.frames, pmm.Tags(), p, copy);
    dst := map[p := copy];
    for i := 0 to FRAME_WORDS
      invariant pmm.Valid() && p in dst && dst[p] == copy
      invariant Copying(m0, t0, src, pmm.ram.frames, pmm.Tags(), dst, p, i)
    {
      var done, dst' := CloneEntry(pmm, p, level, srcTable, copy, i, src, m0, t0, dst);
      if !done {
        GiveUp(pmm, p, level, copy, i, src, m0, t0, dst);
        return None, dst;
      }
      dst := dst';
    }
    CopyingFrame(m0, t0, src, pmm.ram.frames, pmm.Tags(), dst, p, FRAME_WORDS);
    EnoughFrames(m0, t0, src, pmm.ram.frames, pmm.Tags(), dst, p, FRAME_WORDS);
    return Some(copy), dst;
  }

  /** Out of frames: the half-finished copy is freed and the allocator is as it was. */
  method GiveUp(pmm: Pmm, ghost p: Path, level: nat, copy: nat, ghost i: nat,
                ghost src: TableMap, ghost m0: seq<Frame>, ghost t0: Tags, ghost dst: TableMap)
    requires pmm.Valid() && Good(t0) && Copying(m0, t0, src, pmm.ram.frames, pmm.Tags(), dst, p, i)
    requires level == Level(p) && copy == dst[p]
    modifies pmm.Footprint()
    ensures pmm.Valid() && pmm.Tags() == t0 && SameOutside(m0, pmm.ram.frames, FreeSet(t0))
  {
    hide Good, FreeSet, Present, PageFlag, Target, SameOutside, Pmm.Valid, Pmm.Structured, Shaped, Cloned, InPart;
    ghost var m, t := pmm.ram.frames, pmm.Tags();
    ClonedIsTree(m0, src, m, dst, p, i);
    forall q | q in dst ensures dst[q] < pmm.totalFrames {
      CopyFrames(m0, t0, src, m, t, dst, p, i, q);
      pmm.ValidSizes();
    }
    FreeClonedTable(pmm, p, copy, level, dst);
    SameOutsideTrans(m0, m, pmm.ram.frames, FreeSet(t0), pmm.Free(), FreeSet(t0));
    FreeSetDeterminesTags(t0, pmm.Tags());
  }

  /** Each table copied so far took one free frame. */
  lemma EnoughFrames(m0: seq<Frame>, t0: Tags, src: TableMap, m: seq<Frame>, t: Tags, dst: TableMap, p: Path, i: nat)
    requires Copying(m0, t0, src, m, t, dst, p, i)
    ensures |FreeSet(t0)| == |FreeSet(t)| + |Part(src, p, i)|
  {
    hide Good, FreeSet, SameOutside, Shaped, CopyOf, InPart;
    InjectiveCount(dst);
    assert dst.Keys == Part(src, p, i);
    assert FreeSet(t0) == FreeSet(t) + dst.Values;
  }

  /** If the frames left do not suffice below slot `i`, the frames there were do not suffice. */
  lemma TooFewFrames(m0: seq<Frame>, t0: Tags, src: TableMap, m: seq<Frame>, t: Tags, dst: TableMap, p: Path, i: nat)
    requires Copying(m0, t0, src, m, t, dst, p, i) && i < FRAME_WORDS
    requires |FreeSet(t)| < |Part(src, Sub(p, i), FRAME_WORDS)|
    ensures |FreeSet(t0)| < |Part(src, p, FRAME_WORDS)|
  {
    hide Good, FreeSet, SameOutside, Shaped, CopyOf, Part, Cloned;
    EnoughFrames(m0, t0, src, m, t, dst, p, i);
    PartGrows(m0, src, p, i);
  }

  lemma CopyingFrame(m0: seq<Frame>, t0: Tags, src: TableMap, m: seq<Frame>, t: Tags, dst: TableMap, p: Path, i: nat)
    requires Copying(m0, t0, src, m, t, dst, p, i)
    ensures SameOutside(m0, m, FreeSet(t0))
  {
  }

  /** What the loop body reads: the source's own word, and the table it names. */
  lemma EntryFacts(m0: seq<Frame>, t0: Tags, src: TableMap, m: seq<Frame>, t: Tags, dst: TableMap, p: Path, i: nat)
    requires Copying(m0, t0, src, m, t, dst, p, i) && i < FRAME_WORDS
    ensures SourceOwned(m, src, t) && Agree(m0, m, src) && InRam(m0, src) && InRam(m, src)
    ensures p in src && p in dst && dst[p] !in FreeSet(t) && dst[p] < |m|
    ensures m[src[p]][i] == Slot(m0, src, p, i)
    ensures Inner(Level(p), m[src[p]][i]) ==>
              Sub(p, i) in src && src[Sub(p, i)] == Target(m[src[p]][i]) && Depth(Sub(p, i)) == Depth(p) + 1 <= TOP_LEVEL
  {
    hide Good, FreeSet, Present, PageFlag, Target, SameOutside, Cloned, InPart;
    SourceReads(m0, t0, src, m, t, dst, p, i);
    CopyFrames(m0, t0, src, m, t, dst, p, i, p);
    assert Inner(Level(p), Slot(m, src, p, i)) ==> Sub(p, i) in src && Attached(m, src, Sub(p, i));
  }

  lemma ChildCopied(m0: seq<Frame>, t0: Tags, src: TableMap, m: seq<Frame>, t: Tags, dst: TableMap, p: Path, i: nat,
                    m': seq<Frame>, t': Tags, below: TableMap)
    requires Copying(m0, t0, src, m, t, dst, p, i) && Copying(m, t, src, m', t', below, Sub(p, i), FRAME_WORDS)
    ensures below[Sub(p, i)] < ADDRESS_FRAMES && dst[p] !in FreeSet(t') && dst[p] < |m'|
  {
    hide Good, Cloned, Shaped, SameOutside, FreeSet;
    CopyFrames(m, t, src, m', t', below, Sub(p, i), FRAME_WORDS, Sub(p, i));
    CopyFrames(m0, t0, src, m, t, dst, p, i, p);
    SourceReads(m, t, src, m', t', below, Sub(p, i), FRAME_WORDS);
  }

  /** The child table was copied; its new frame goes into the slot with the old flags. */
  lemma CopyingChild(m0: seq<Frame>, t0: Tags, src: TableMap, m: seq<Frame>, t: Tags, dst: TableMap, p: Path, i: nat,
                     m': seq<Frame>, t': Tags, below: TableMap, w: Word)
    requires Copying(m0, t0, src, m, t, dst, p, i) && i < FRAME_WORDS
    requires Copying(m, t, src, m', t', below, Sub(p, i), FRAME_WORDS)
    requires dst[p] < |m'| && Agree(m0, m, src) && InRam(m, src)
    requires Inner(Level(p), Slot(m0, src, p, i)) && Target(w) == below[Sub(p, i)]
    requires FlagBits(w) == FlagBits(Slot(m0, src, p, i))
    ensures Copying(m0, t0, src, Written(m', dst[p], i, w), t', dst + below, p, i + 1)
    ensures p in dst + below && (dst + below)[p] == dst[p]
  {
    hide Good, Cloned, Shaped, SameOutside, FreeSet, Present, PageFlag, Target, FlagBits;
    ClonedFromSame(m0, m, src, m', below, Sub(p, i), FRAME_WORDS);
    CopyingStep(m0, t0, src, m, t, dst, p, i, m', t', below, w);
  }

  /** A hole stays zero and a leaf is copied as it is. */
  lemma CopyingPlain(m0: seq<Frame>, t0: Tags, src: TableMap, m: seq<Frame>, t: Tags, dst: TableMap, p: Path, i: nat)
    requires Copying(m0, t0, src, m, t, dst, p, i) && i < FRAME_WORDS && dst[p] < |m|
    requires !Inner(Level(p), Slot(m0, src, p, i))
    ensures var w := Slot(m0, src, p, i);
            Copying(m0, t0, src, if Present(w) then Written(m, dst[p], i, w) else m, t, dst, p, i + 1)
  {
    hide Good, FreeSet, Present, PageFlag, Target, Attached, InPart;
    var w := Slot(m0, src, p, i);
    assert m[dst[p]][i] == 0;
    var w' := if Present(w) then w else 0;
    NothingBelowSlot(m0, src, m, p, i);
    SameOutsideSelf(m, FreeSet(t));
    assert dst + map[] == dst;
    CopyingStep(m0, t0, src, m, t, dst, p, i, m, t, map[], w');
    if !Present(w) {
      assert m[dst[p]][i := 0] == m[dst[p]];
      assert Written(m, dst[p], i, 0) == m;
    }
  }

  /** A finished copy of the root: owned tables with the source's translations, in frames that were
      free; nothing outside those frames was written. */
  ghost predicate TakesOver(m0: seq<Frame>, t0: Tags, src: TableMap, s: Snap)
    requires InRam(m0, src)
  {
    && Sound(s) && s.tables.Keys == src.Keys && Pool(s) == FreeSet(t0) && |s.tags| == |t0|
    && SameOutside(m0, s.m, FreeSet(t0))
    && (forall v: Word :: At(s, v) == View(m0, src, v))
    && (Tidy(s.m, s.tables) <==> Tidy(m0, src))
  }

  lemma CopyTakesOver(m0: seq<Frame>, t0: Tags, src: TableMap, m: seq<Frame>, t: Tags, dst: TableMap)
    requires Copying(m0, t0, src, m, t, dst, Root, FRAME_WORDS)
    ensures TakesOver(m0, t0, src, Snap(m, dst, t))
  {
    hide Good, FreeSet, Cloned, View, SameOutside, Tidy, Injective, Attached;
    CloneTranslates(m0, src, m, dst);
    SourceReads(m0, t0, src, m, t, dst, Root, FRAME_WORDS);
    forall p | p in dst ensures dst[p] < |t| {
      CopyFrames(m0, t0, src, m, t, dst, Root, FRAME_WORDS, p);
    }
    assert Pool(Snap(m, dst, t)) == FreeSet(t0);
  }

  lemma WholeSource(m: seq<Frame>, src: TableMap)
    requires Shaped(m, src)
    ensures |Part(src, Root, FRAME_WORDS)| == |src|
  {
    hide Shaped, InPart;
    forall q | q in src ensures InPart(q, Root, FRAME_WORDS) {
      TablePathsAreSmall(m, src, q);
      AllBelowRoot(q);
    }
    assert Part(src, Root, FRAME_WORDS) == src.Keys;
  }

  /** `take_ownership`, with the register CR3 as a parameter and its new value as a result. */
  method TakeOwnership(pmm: Pmm, cr3: Word, ghost src: TableMap) returns (r: Option<Vmm>, newCr3: Word)
    requires pmm.Valid() && SourceOwned(pmm.ram.frames, src, pmm.Tags()) && src[Root] == Target(cr3)
    modifies pmm.Footprint()
    ensures pmm.Valid()
    ensures r.None? <==> old(|pmm.Free()|) < |src|
    ensures r.None? ==> pmm.Tags() == old(pmm.Tags()) && newCr3 == cr3
                        && SameOutside(old(pmm.ram.frames), pmm.ram.frames, old(pmm.Free()))
    ensures r.Some? ==> fresh(r.value) && r.value.pmm == pmm && r.value.Valid()
                        && TakesOver(old(pmm.ram.frames), old(pmm.Tags()), src, r.value.Now())
                        && Target(newCr3) == r.value.tables[Root] && FlagBits(newCr3) == FlagBits(cr3)
  {
    hide Good, FreeSet, Cloned, Attached, View, SameOutside, Tidy, Copying, Present, PageFlag, Target, FlagBits, Pmm.Valid, Part;
    ghost var m0, t0 := pmm.ram.frames, pmm.Tags();
    WholeSource(m0, src);
    var top, dst := CloneTable(pmm, Root, TOP_LEVEL, Target(cr3), src);
    if top.None? { return None, cr3; }
    CopyTakesOver(m0, t0, src, pmm.ram.frames, pmm.Tags(), dst);
    var vmm := new Vmm(pmm, top.value * FRAME_SIZE, dst);
    return Some(vmm), MakeEntry(top.value, FlagBits(cr3));
  }
}

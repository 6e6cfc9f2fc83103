/** The buddy decomposition, seen through `frame_order` alone.

  `frame_order` tags every frame of a free block with the order of that block and every other
  frame with `ORDER_NONE`.  A tag array is `Good` when each tag describes a whole naturally
  aligned block and no two buddies below `MAX_ORDER` are both free.  The main theorem says that a
  good tag array is the canonical one of its free set: each free frame carries the largest order
  whose aligned block around it is entirely free.  So the free blocks depend on which frames are
  free and on nothing else.
 */
module BuddyTags {
  import opened Alignment
  import opened Memory

  const MAX_ORDER: nat := 11
  const ORDER_NONE: nat := 0xFF

  type Byte = b: nat | b < 0x100
  type Tags = seq<Byte>

  ghost function FreeSet(t: Tags): set<nat> {
    set f: nat | f < |t| && t[f] != ORDER_NONE
  }

  /** All frames of the block of order `o` around `f` exist and carry tag `o`. */
  ghost predicate TaggedBlock(t: Tags, f: nat, o: nat) {
    && o <= MAX_ORDER
    && Down(f, o) + Pow2(o) <= |t|
    && forall g: nat :: Down(f, o) <= g < Down(f, o) + Pow2(o) ==> t[g] == o
  }

  ghost predicate Uniform(t: Tags) {
    forall f: nat :: f < |t| && t[f] != ORDER_NONE ==> TaggedBlock(t, f, t[f])
  }

  /** A free block of order `o` starts at `f`. */
  predicate Head(t: Tags, f: nat, o: nat) {
    f < |t| && o <= MAX_ORDER && Aligned(f, o) && t[f] == o
  }

  lemma HeadIsFree(t: Tags, f: nat)
    requires f !in FreeSet(t)
    ensures forall o: nat :: !Head(t, f, o)
  {
  }

  ghost predicate NoFreeBuddies(t: Tags) {
    forall f: nat, o: nat :: Head(t, f, o) && o < MAX_ORDER ==> !Head(t, Buddy(f, o), o)
  }

  ghost predicate Good(t: Tags) {
    Uniform(t) && NoFreeBuddies(t)
  }

  // ---------------------------------------------------------------- list_push and list_remove

  /** What `set_block_order` leaves. */
  ghost function SetRun(t: Tags, f: nat, o: nat, value: Byte): (r: Tags)
    requires f + Pow2(o) <= |t|
    ensures |r| == |t|
    ensures forall g: nat :: g < |t| ==> r[g] == if f <= g < f + Pow2(o) then value else t[g]
  {
    t[..f] + seq(Pow2(o), _ => value) + t[f + Pow2(o)..]
  }

  /** Two tagged blocks that meet are the same block. */
  lemma SameBlock(t: Tags, f: nat, o: nat, g: nat)
    requires Uniform(t) && Head(t, f, o) && g < |t| && t[g] != ORDER_NONE
    requires Down(g, t[g]) < f + Pow2(o) && f < Down(g, t[g]) + Pow2(t[g])
    ensures t[g] == o && Down(g, o) == f
  {
    hide Pow2, Down, Interval;
    assert TaggedBlock(t, f, t[f]) && TaggedBlock(t, g, t[g]);
    var b := Down(g, t[g]);
    var meet := if b <= f then f else b;
    assert t[meet] == o && t[meet] == t[g];
    DownUnique(f, meet, o);
    DownUnique(g, meet, o);
  }

  lemma RemoveKeepsGood(t: Tags, f: nat, o: nat)
    requires Good(t) && Head(t, f, o)
    ensures f + Pow2(o) <= |t|
    ensures var t' := SetRun(t, f, o, ORDER_NONE);
            && Good(t')
            && FreeSet(t') == FreeSet(t) - Run(f, o) && Run(f, o) <= FreeSet(t)
            && forall g: nat, p: nat :: Head(t', g, p) <==> Head(t, g, p) && !(g == f && p == o)
  {
    hide Pow2, Down, Interval;
    assert TaggedBlock(t, f, t[f]);
    var t' := SetRun(t, f, o, ORDER_NONE);
    forall g: nat | g < |t'| && t'[g] != ORDER_NONE
      ensures TaggedBlock(t', g, t'[g])
    {
      assert TaggedBlock(t, g, t[g]);
      if Down(g, t[g]) < f + Pow2(o) && f < Down(g, t[g]) + Pow2(t[g]) {
        SameBlock(t, f, o, g);
      }
    }
    forall g: nat, p: nat
      ensures Head(t', g, p) <==> Head(t, g, p) && !(g == f && p == o)
    {
      if Head(t, g, p) && f <= g < f + Pow2(o) {
        SameBlock(t, f, o, g);
      }
    }
  }

  lemma PushKeepsGood(t: Tags, f: nat, o: nat)
    requires Good(t) && o <= MAX_ORDER && Aligned(f, o) && f + Pow2(o) <= |t|
    requires Run(f, o) !! FreeSet(t)
    requires o < MAX_ORDER ==> !Head(t, Buddy(f, o), o)
    ensures var t' := SetRun(t, f, o, o);
            && Good(t')
            && FreeSet(t') == FreeSet(t) + Run(f, o)
            && forall g: nat, p: nat :: Head(t', g, p) <==> Head(t, g, p) || (g == f && p == o)
  {
    hide Pow2, Down, Interval;
    var t' := SetRun(t, f, o, o);
    PushKeepsUniform(t, f, o);
    PushKeepsNoFreeBuddies(t, f, o);
    forall g: nat, p: nat
      ensures Head(t', g, p) <==> Head(t, g, p) || (g == f && p == o)
    {
      PushAddsHead(t, f, o, g, p);
    }
    PushFreeSet(t, f, o);
  }

  lemma PushFreeSet(t: Tags, f: nat, o: nat)
    requires o <= MAX_ORDER && f + Pow2(o) <= |t|
    ensures FreeSet(SetRun(t, f, o, o)) == FreeSet(t) + Run(f, o)
  {
    hide Pow2, Down, Interval;
    var t' := SetRun(t, f, o, o);
    assert forall g: nat :: g in FreeSet(t') <==> g in FreeSet(t) || g in Run(f, o);
  }

  lemma PushKeepsNoFreeBuddies(t: Tags, f: nat, o: nat)
    requires NoFreeBuddies(t) && o <= MAX_ORDER && Aligned(f, o) && f + Pow2(o) <= |t|
    requires Run(f, o) !! FreeSet(t)
    requires o < MAX_ORDER ==> !Head(t, Buddy(f, o), o)
    ensures NoFreeBuddies(SetRun(t, f, o, o))
  {
    hide Pow2, Down, Interval;
    var t' := SetRun(t, f, o, o);
    forall g: nat, p: nat | Head(t', g, p) && p < MAX_ORDER
      ensures !Head(t', Buddy(g, p), p)
    {
      PushAddsHead(t, f, o, g, p);
      PushAddsHead(t, f, o, Buddy(g, p), p);
      BuddyOfBuddy(g, p);
    }
  }

  lemma BuddyOfBuddy(f: nat, o: nat)
    requires Aligned(f, o)
    ensures Buddy(Buddy(f, o), o) == f
  {
    hide Pow2, Down, Interval;
  }

  lemma PushAddsHead(t: Tags, f: nat, o: nat, g: nat, p: nat)
    requires o <= MAX_ORDER && Aligned(f, o) && f + Pow2(o) <= |t| && Run(f, o) !! FreeSet(t)
    ensures Head(SetRun(t, f, o, o), g, p) <==> Head(t, g, p) || (g == f && p == o)
  {
    hide Pow2, Down, Interval;
    if f <= g < f + Pow2(o) {
      DownUnique(f, g, o);
      assert g in Run(f, o);
    }
  }

  lemma PushKeepsUniform(t: Tags, f: nat, o: nat)
    requires Uniform(t) && o <= MAX_ORDER && Aligned(f, o) && f + Pow2(o) <= |t|
    requires Run(f, o) !! FreeSet(t)
    ensures Uniform(SetRun(t, f, o, o))
  {
    hide Pow2, Down, Interval;
    var t' := SetRun(t, f, o, o);
    forall g: nat | g < |t'| && t'[g] != ORDER_NONE
      ensures TaggedBlock(t', g, t'[g])
    {
      if f <= g < f + Pow2(o) {
        DownUnique(f, g, o);
      } else {
        assert TaggedBlock(t, g, t[g]);
        PushMissesBlock(t, f, o, g);
      }
    }
  }

  lemma PushMissesBlock(t: Tags, f: nat, o: nat, g: nat)
    requires f + Pow2(o) <= |t| && Run(f, o) !! FreeSet(t)
    requires g < |t| && t[g] != ORDER_NONE && TaggedBlock(t, g, t[g])
    ensures Down(g, t[g]) + Pow2(t[g]) <= f || f + Pow2(o) <= Down(g, t[g])
  {
    hide Pow2, Down, Interval;
    var b := Down(g, t[g]);
    var meet := if b <= f then f else b;
    assert meet < b + Pow2(t[g]) ==> meet in FreeSet(t);
    assert meet < f + Pow2(o) ==> meet in Run(f, o);
  }

  // ---------------------------------------------------------------- the canonical decomposition

  /** The aligned block of order `o` around `f` is entirely free. */
  ghost predicate Fits(free: set<nat>, f: nat, o: nat) {
    forall g: nat :: Down(f, o) <= g < Down(f, o) + Pow2(o) ==> g in free
  }

  /** The largest order up to `MAX_ORDER`, searched upwards from `o`, whose block around `f` fits. */
  ghost function LargestFit(free: set<nat>, f: nat, o: nat): nat
    requires o <= MAX_ORDER
    decreases MAX_ORDER - o
  {
    if o < MAX_ORDER && Fits(free, f, o + 1) then LargestFit(free, f, o + 1) else o
  }

  ghost function CanonicalTag(free: set<nat>, f: nat): nat {
    if f in free then LargestFit(free, f, 0) else ORDER_NONE
  }

  ghost predicate CanonicalTags(t: Tags) {
    forall f: nat :: f < |t| ==> t[f] == CanonicalTag(FreeSet(t), f)
  }

  /** A free aligned block lies inside one listed block: the heart of coalescing. */
  lemma {:induction false} FreeBlockIsCovered(t: Tags, f: nat, o: nat)
    requires Good(t) && o <= MAX_ORDER && Aligned(f, o) && Run(f, o) <= FreeSet(t)
    ensures f < |t| && o <= t[f] <= MAX_ORDER
    decreases o
  {
    hide Pow2, Down, Interval;
    if o == 0 {
      assert f in Run(f, o);
      assert TaggedBlock(t, f, t[f]);
    } else {
      var half := f + Pow2(o - 1);
      AlignedHalves(f, o - 1);
      Pow2Next(o - 1);
      assert Run(f, o - 1) <= Run(f, o) && Run(half, o - 1) <= Run(f, o);
      FreeBlockIsCovered(t, f, o - 1);
      FreeBlockIsCovered(t, half, o - 1);
      HalvesShareBlock(t, f, o - 1);
    }
  }

  lemma HalvesShareBlock(t: Tags, f: nat, o: nat)
    requires Good(t) && o < MAX_ORDER && Aligned(f, o + 1) && f + Pow2(o) < |t|
    requires o <= t[f] <= MAX_ORDER && o <= t[f + Pow2(o)] <= MAX_ORDER
    ensures o < t[f]
  {
    hide Pow2, Down, Interval;
    var half := f + Pow2(o);
    AlignedHalves(f, o);
    if t[f] == o {
      assert Head(t, f, o) && Buddy(f, o) == half;
      assert t[half] != o;
      assert Down(half, o + 1) == f;
      LargerTagReaches(t, half, o + 1, t[half]);
    }
  }

  lemma FitsAlone(free: set<nat>, f: nat)
    requires f in free
    ensures Fits(free, f, 0)
  {
  }

  lemma FitsDownward(free: set<nat>, f: nat, a: nat, b: nat)
    requires a <= b && Fits(free, f, b)
    ensures Fits(free, f, a)
  {
    hide Pow2, Down, Interval;
    DownNest(f, a, b);
  }

  lemma {:induction false} LargestFitIsLargest(free: set<nat>, f: nat, o: nat)
    requires o <= MAX_ORDER && Fits(free, f, o)
    ensures var r := LargestFit(free, f, o);
            && o <= r <= MAX_ORDER && Fits(free, f, r)
            && forall p: nat :: r < p <= MAX_ORDER ==> !Fits(free, f, p)
    decreases MAX_ORDER - o
  {
    hide Pow2, Down, Interval;
    if o < MAX_ORDER && Fits(free, f, o + 1) {
      LargestFitIsLargest(free, f, o + 1);
    } else {
      NothingLargerFits(free, f, o);
    }
  }

  lemma NothingLargerFits(free: set<nat>, f: nat, o: nat)
    requires o == MAX_ORDER || !Fits(free, f, o + 1)
    ensures forall p: nat :: o < p <= MAX_ORDER ==> !Fits(free, f, p)
  {
    hide Pow2, Down, Interval;
    forall p: nat | o < p <= MAX_ORDER && Fits(free, f, p) ensures false {
      FitsDownward(free, f, o + 1, p);
    }
  }

  /** The canonical tag is characterised by fitting while nothing larger does. */
  lemma CanonicalTagIs(free: set<nat>, f: nat, o: nat)
    requires f in free && o <= MAX_ORDER
    ensures CanonicalTag(free, f) == o <==>
              Fits(free, f, o) && forall p: nat :: o < p <= MAX_ORDER ==> !Fits(free, f, p)
  {
    hide Pow2, Down, Interval;
    FitsAlone(free, f);
    LargestFitIsLargest(free, f, 0);
    var r := LargestFit(free, f, 0);
    assert Fits(free, f, r);
  }

  lemma GoodIsCanonical(t: Tags)
    requires Good(t)
    ensures CanonicalTags(t)
  {
    hide Pow2, Down, Interval;
    var free := FreeSet(t);
    forall f: nat | f < |t| ensures t[f] == CanonicalTag(free, f) {
      if t[f] != ORDER_NONE {
        var o := t[f];
        assert TaggedBlock(t, f, o);
        forall p: nat | o < p <= MAX_ORDER ensures !Fits(free, f, p) {
          if Fits(free, f, p) {
            DownAligned(f, p);
            FreeBlockIsCovered(t, Down(f, p), p);
            LargerTagReaches(t, f, p, t[Down(f, p)]);
          }
        }
        CanonicalTagIs(free, f, o);
      }
    }
  }

  /** Frames of one aligned block carry one tag when either tag is at least its order. */
  lemma LargerTagReaches(t: Tags, f: nat, p: nat, q: nat)
    requires Uniform(t) && p <= q <= MAX_ORDER && f < |t|
    requires Down(f, p) < |t| && (t[f] == q || t[Down(f, p)] == q)
    ensures t[f] == t[Down(f, p)] == q
  {
    hide Pow2, Down, Interval;
    var b := Down(f, p);
    DownNest(f, p, q);
    assert t[f] == q ==> TaggedBlock(t, f, t[f]);
    assert t[b] == q ==> TaggedBlock(t, b, t[b]);
  }

  lemma CanonicalIsUniform(t: Tags)
    requires CanonicalTags(t)
    ensures Uniform(t)
  {
    hide Pow2, Down, Interval;
    var free := FreeSet(t);
    forall f: nat | f < |t| && t[f] != ORDER_NONE
      ensures TaggedBlock(t, f, t[f])
    {
      var o := t[f];
      FitsAlone(free, f);
      LargestFitIsLargest(free, f, 0);
      var b := Down(f, o);
      assert b + Pow2(o) - 1 in free;
      forall g: nat | b <= g < b + Pow2(o) ensures t[g] == o {
        SameCanonicalTag(free, f, g, o);
        assert g in Run(b, o);
      }
    }
  }

  lemma SameCanonicalTag(free: set<nat>, f: nat, g: nat, o: nat)
    requires f in free && o <= MAX_ORDER && CanonicalTag(free, f) == o
    requires Down(f, o) <= g < Down(f, o) + Pow2(o)
    ensures CanonicalTag(free, g) == o
  {
    hide Pow2, Down, Interval;
    CanonicalTagIs(free, f, o);
    assert g in Run(Down(f, o), o);
    forall p: nat | o <= p <= MAX_ORDER ensures Down(g, p) == Down(f, p) {
      DownNest(f, o, p);
      DownUnique(f, g, p);
    }
    forall p: nat | o < p <= MAX_ORDER ensures !Fits(free, g, p) {
      assert Down(g, p) == Down(f, p);
      assert !Fits(free, f, p);
    }
    assert Fits(free, g, o);
    CanonicalTagIs(free, g, o);
  }

  lemma CanonicalHasNoFreeBuddies(t: Tags)
    requires CanonicalTags(t)
    ensures NoFreeBuddies(t)
  {
    hide Pow2, Down, Interval;
    var free := FreeSet(t);
    forall f: nat, o: nat | Head(t, f, o) && o < MAX_ORDER
      ensures !Head(t, Buddy(f, o), o)
    {
      var b := Buddy(f, o);
      if Head(t, b, o) {
        CanonicalTagIs(free, f, o);
        CanonicalTagIs(free, b, o);
        BuddiesMerge(free, f, o);
      }
    }
  }

  lemma BuddiesMerge(free: set<nat>, f: nat, o: nat)
    requires Aligned(f, o) && Fits(free, f, o) && Fits(free, Buddy(f, o), o)
    ensures Fits(free, f, o + 1)
  {
    hide Pow2, Down;
    Pow2Next(o);
  }

  /** A tag array keeps the allocator's invariant exactly when it is the canonical one. */
  lemma GoodIffCanonical(t: Tags)
    ensures Good(t) <==> CanonicalTags(t)
  {
    hide Pow2, Down, Interval;
    if Good(t) { GoodIsCanonical(t); }
    if CanonicalTags(t) {
      CanonicalIsUniform(t);
      CanonicalHasNoFreeBuddies(t);
    }
  }

  /** History independence: equal free sets have equal decompositions. */
  lemma FreeSetDeterminesTags(t: Tags, u: Tags)
    requires Good(t) && Good(u) && |t| == |u| && FreeSet(t) == FreeSet(u)
    ensures t == u
  {
    hide Pow2, Down, Interval;
    GoodIsCanonical(t);
    GoodIsCanonical(u);
    assert forall f: nat :: f < |t| ==> t[f] == u[f];
  }

  /** Some free block has order at least `o` exactly when some aligned run of 2^o frames is free. */
  lemma LargeBlockIffRun(t: Tags, o: nat)
    requires Good(t) && o <= MAX_ORDER
    ensures (exists f: nat, p: nat :: Head(t, f, p) && o <= p) <==>
            (exists f: nat :: Aligned(f, o) && Run(f, o) <= FreeSet(t))
  {
    hide Pow2, Down, Interval;
    if f: nat, p: nat :| Head(t, f, p) && o <= p {
      assert TaggedBlock(t, f, t[f]);
      AlignedSmaller(f, o, p);
      Pow2Monotone(o, p);
      assert Aligned(f, o) && Run(f, o) <= FreeSet(t);
    }
    if f: nat :| Aligned(f, o) && Run(f, o) <= FreeSet(t) {
      FreeBlockIsCovered(t, f, o);
      assert TaggedBlock(t, f, t[f]);
      DownAligned(f, t[f]);
      assert Head(t, Down(f, t[f]), t[f]);
    }
  }

  // ---------------------------------------------------------------- one step of the allocator

  /** `alloc_pages(order)`: nothing exactly when no aligned run is free, otherwise a free run. */
  ghost predicate Allocates(t: Tags, t': Tags, order: nat, result: Option<nat>) {
    && (result.None? <==> forall f: nat :: Aligned(f, order) ==> !(Run(f, order) <= FreeSet(t)))
    && (result.None? ==> t' == t)
    && (result.Some? ==>
          && Aligned(result.value, order) && Run(result.value, order) <= FreeSet(t)
          && Becomes(t, t', FreeSet(t) - Run(result.value, order)))
  }

  /** `free_pages`. */
  ghost predicate Releases(t: Tags, t': Tags, f: nat, order: nat) {
    Becomes(t, t', FreeSet(t) + Run(f, order))
  }

  /** `add_range`. */
  ghost predicate Adds(t: Tags, t': Tags, first: nat, count: nat) {
    Becomes(t, t', FreeSet(t) + Range(first, count))
  }

  ghost predicate Becomes(t: Tags, t': Tags, free: set<nat>) {
    |t'| == |t| && Good(t') && FreeSet(t') == free
  }
}

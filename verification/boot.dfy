/** Seeding the frame allocator from the boot memory map (kernel/src/mm/mod.rs). */
module Boot {
  import opened Alignment
  import opened BuddyTags
  import opened Memory
  import opened Links
  import opened FrameAllocator

  /** One region of the memory map; only usable ones are handed out. */
  datatype Entry = Entry(base: nat, length: nat, usable: bool) {
    function End(): nat { base + length }
    function First(): nat { base / FRAME_SIZE }
    function Last(): nat { (base + length) / FRAME_SIZE }
  }

  // ---------------------------------------------------------------- align_up, align_down

  /** `(addr + align - 1) & !(align - 1)` for `align = 1 << k`. */
  function AlignUp(addr: nat, k: nat): nat {
    AndNot(addr + Pow2(k) - 1, Pow2(k) - 1)
  }

  /** `addr & !(align - 1)` for `align = 1 << k`. */
  function AlignDown(addr: nat, k: nat): nat {
    AndNot(addr, Pow2(k) - 1)
  }

  lemma {:induction false} MaskIsDown(x: nat, k: nat)
    ensures AndNot(x, Pow2(k) - 1) == Down(x, k)
    decreases k
  {
    if k == 0 {
      XorZero(x);
    } else {
      var m := Pow2(k - 1) - 1;
      assert Pow2(k) - 1 == 2 * m + 1;
      MaskIsDown(x / 2, k - 1);
      MaskOdd(x, m);
    }
  }

  lemma MaskOdd(x: nat, m: nat)
    ensures AndNot(x, 2 * m + 1) == 2 * AndNot(x / 2, m)
  {
  }

  /** `align_up` is the least multiple not below, `align_down` the greatest not above. */
  lemma AlignIsNearest(addr: nat, k: nat)
    ensures AlignUp(addr, k) % Pow2(k) == 0 && addr <= AlignUp(addr, k) < addr + Pow2(k)
    ensures AlignDown(addr, k) % Pow2(k) == 0 && AlignDown(addr, k) <= addr < AlignDown(addr, k) + Pow2(k)
  {
    hide Down, Pow2, AndNot;
    MaskIsDown(addr + Pow2(k) - 1, k);
    MaskIsDown(addr, k);
    DownAligned(addr + Pow2(k) - 1, k);
    DownAligned(addr, k);
    DownIsRemainder(AlignUp(addr, k), k);
    DownIsRemainder(AlignDown(addr, k), k);
  }

  const FRAME_SHIFT: nat := 12

  lemma FrameAlignUp(addr: nat)
    ensures var up := AlignUp(addr, FRAME_SHIFT);
            up == (addr + FRAME_SIZE - 1) / FRAME_SIZE * FRAME_SIZE && up / FRAME_SIZE * FRAME_SIZE == up
            && addr <= up < addr + FRAME_SIZE
  {
    hide AlignUp, Pow2;
    AlignIsNearest(addr, FRAME_SHIFT);
    FrameSizeIsPower();
  }

  lemma FrameSizeIsPower()
    ensures Pow2(FRAME_SHIFT) == FRAME_SIZE
  {
  }

  // ---------------------------------------------------------------- the memory map

  /** The highest end of the first `n` entries. */
  ghost function Highest(entries: seq<Entry>, n: nat): (h: nat)
    requires n <= |entries|
    ensures forall i: nat :: i < n ==> entries[i].End() <= h
    ensures h == 0 || exists i: nat :: i < n && entries[i].End() == h
  {
    if n == 0 then 0 else
      var h := Highest(entries, n - 1);
      if entries[n - 1].End() > h then entries[n - 1].End() else h
  }

  ghost function TotalFrames(entries: seq<Entry>): nat {
    AlignUp(Highest(entries, |entries|), FRAME_SHIFT) / FRAME_SIZE
  }

  /** `n` frames contain every entry. */
  ghost predicate Reaches(entries: seq<Entry>, n: nat) {
    forall i: nat :: i < |entries| ==> entries[i].End() <= n * FRAME_SIZE
  }

  /** No smaller number of frames contains every entry. */
  lemma TotalIsLeast(entries: seq<Entry>)
    ensures Reaches(entries, TotalFrames(entries))
    ensures forall n: nat :: Reaches(entries, n) ==> TotalFrames(entries) <= n
  {
    hide AlignUp;
    var h := Highest(entries, |entries|);
    FrameAlignUp(h);
    forall n: nat | Reaches(entries, n) ensures TotalFrames(entries) <= n {
      assert h <= n * FRAME_SIZE;
    }
  }

  /** What the Limine Boot Protocol promises of usable entries: page-aligned and not overlapping. */
  ghost predicate WellFormed(entries: seq<Entry>) {
    && (forall i: nat :: i < |entries| && entries[i].usable ==>
          entries[i].base % FRAME_SIZE == 0 && entries[i].length % FRAME_SIZE == 0)
    && (forall i: nat, j: nat :: i < j < |entries| && entries[i].usable && entries[j].usable ==>
          entries[i].End() <= entries[j].base || entries[j].End() <= entries[i].base)
  }

  ghost function EntryFrames(e: Entry): set<nat> {
    if e.usable then Interval(e.First(), e.Last()) else {}
  }

  /** The frames of the usable ones among the first `n` entries. */
  ghost function UsableFrames(entries: seq<Entry>, n: nat): set<nat>
    requires n <= |entries|
  {
    if n == 0 then {} else UsableFrames(entries, n - 1) + EntryFrames(entries[n - 1])
  }

  lemma {:induction false} UsableApart(entries: seq<Entry>, n: nat, i: nat)
    requires WellFormed(entries) && n <= i < |entries|
    ensures UsableFrames(entries, n) !! EntryFrames(entries[i])
    decreases n
  {
    hide Interval;
    if n > 0 {
      UsableApart(entries, n - 1, i);
      FramesApart(entries[n - 1], entries[i]);
    }
  }

  lemma FramesApart(d: Entry, e: Entry)
    requires d.usable && e.usable ==> d.End() <= e.base || e.End() <= d.base
    requires d.usable ==> d.base % FRAME_SIZE == 0 && d.length % FRAME_SIZE == 0
    requires e.usable ==> e.base % FRAME_SIZE == 0 && e.length % FRAME_SIZE == 0
    ensures EntryFrames(d) !! EntryFrames(e)
  {
    hide Interval;
  }

  /** The frames of a usable entry are those whose every byte lies in it. */
  lemma WholeFrames(e: Entry, x: nat)
    requires e.usable && e.base % FRAME_SIZE == 0 && e.length % FRAME_SIZE == 0
    ensures x in EntryFrames(e) <==> e.base <= x * FRAME_SIZE && (x + 1) * FRAME_SIZE <= e.base + e.length
  {
    hide Interval;
  }

  /** The entry that takes the metadata: the first usable one with a byte for every frame. */
  ghost predicate Holds(entries: seq<Entry>, k: nat) {
    && k < |entries| && entries[k].usable && TotalFrames(entries) <= entries[k].length
    && forall i: nat :: i < k ==> !(entries[i].usable && TotalFrames(entries) <= entries[i].length)
  }

  /** The frames at the start of entry `k` that hold a byte for every frame. */
  ghost function Metadata(entries: seq<Entry>, k: nat): set<nat>
    requires k < |entries|
  {
    Interval(entries[k].First(), entries[k].First() + (TotalFrames(entries) + FRAME_SIZE - 1) / FRAME_SIZE)
  }

  /** The frames with at least one of the `n` bytes from the frame-aligned address `base` on. */
  ghost predicate HoldsBytes(frames: set<nat>, base: nat, n: nat) {
    forall x: nat :: x in frames <==> base <= x * FRAME_SIZE < base + n
  }

  /** The metadata has room for one byte per frame, less than a frame to spare, inside its entry. */
  lemma MetadataFits(entries: seq<Entry>, k: nat)
    requires WellFormed(entries) && Holds(entries, k)
    ensures TotalFrames(entries) <= |Metadata(entries, k)| * FRAME_SIZE < TotalFrames(entries) + FRAME_SIZE
    ensures Metadata(entries, k) <= EntryFrames(entries[k])
    ensures HoldsBytes(Metadata(entries, k), entries[k].base, TotalFrames(entries))
  {
    hide Interval, TotalFrames;
    var n := (TotalFrames(entries) + FRAME_SIZE - 1) / FRAME_SIZE;
    IntervalSize(entries[k].First(), entries[k].First() + n);
  }

  /** Lengths are whole frames, so rounding the number of bytes up to frames changes nothing. */
  lemma RoundedFits(bytes: nat, length: nat)
    requires length % FRAME_SIZE == 0
    ensures AlignUp(bytes, FRAME_SHIFT) <= length <==> bytes <= length
  {
    hide AlignUp;
    FrameAlignUp(bytes);
  }

  // ---------------------------------------------------------------- init

  /** Adds the frames of one piece, but never frame 0. */
  method AddPiece(pmm: Pmm, s: nat, e: nat)
    requires pmm.Valid() && e <= pmm.totalFrames && Interval(s, e) - {0} !! pmm.Free()
    modifies pmm.Footprint()
    ensures pmm.Valid() && pmm.Free() == old(pmm.Free()) + (Interval(s, e) - {0}) && pmm.Kept(old(pmm.ram.frames))
  {
    hide Interval, FreeSet, Pmm.Valid, Good, SameOutside;
    SameOutsideSelf(pmm.ram.frames, pmm.Free());
    if e <= s { return; }
    var start := if s == 0 then 1 else s;
    if e > start {
      assert Range(start, e - start) == Interval(s, e) - {0};
      ghost var calls := pmm.AddRange(start, e - start);
    } else {
      assert Interval(s, e) - {0} == {};
    }
  }

  /** The two pieces of an entry beside the metadata are the entry without the metadata. */
  lemma PiecesCover(first: nat, last: nat, a: nat, b: nat)
    requires a <= b
    ensures Interval(first, Min(last, a)) + Interval(Max(first, b), last) == Interval(first, last) - Interval(a, b)
    ensures Interval(first, Min(last, a)) !! Interval(Max(first, b), last)
  {
    hide Interval;
  }

  function Min(a: nat, b: nat): nat {
    if a <= b then a else b
  }

  function Max(a: nat, b: nat): nat {
    if a >= b then a else b
  }

  /** The frame range of one entry, with the metadata carved out. */
  method AddEntry(pmm: Pmm, entry: Entry, orderFirst: nat, orderLast: nat)
    requires pmm.Valid() && orderFirst <= orderLast && entry.usable && entry.Last() <= pmm.totalFrames
    requires EntryFrames(entry) !! pmm.Free()
    modifies pmm.Footprint()
    ensures pmm.Valid() && pmm.Kept(old(pmm.ram.frames))
    ensures pmm.Free() == old(pmm.Free()) + (EntryFrames(entry) - Interval(orderFirst, orderLast) - {0})
  {
    hide Interval, FreeSet, Pmm.Valid, SameOutside;
    var first, last := entry.First(), entry.Last();
    PiecesCover(first, last, orderFirst, orderLast);
    AddPiece(pmm, first, Min(last, orderFirst));
    ghost var m, free := pmm.ram.frames, pmm.Free();
    AddPiece(pmm, Max(first, orderLast), last);
    SameOutsideTrans(old(pmm.ram.frames), m, pmm.ram.frames, free, pmm.Free(), pmm.Free());
  }

  method HighestEnd(entries: seq<Entry>) returns (highest: nat)
    ensures highest == Highest(entries, |entries|)
  {
    highest := 0;
    for i := 0 to |entries|
      invariant highest == Highest(entries, i)
    {
      var end := entries[i].base + entries[i].length;
      if end > highest { highest := end; }
    }
  }

  /** The index of the first usable entry of at least the given length, or the number of entries. */
  method FindHolder(entries: seq<Entry>, bytes: nat) returns (k: nat)
    ensures k <= |entries| && (k < |entries| ==> entries[k].usable && bytes <= entries[k].length)
    ensures forall i: nat :: i < k ==> !(entries[i].usable && bytes <= entries[i].length)
  {
    k := 0;
    while k < |entries| && !(entries[k].usable && bytes <= entries[k].length)
      invariant k <= |entries|
      invariant forall i: nat :: i < k ==> !(entries[i].usable && bytes <= entries[i].length)
    {
      k := k + 1;
    }
  }

  /** The loop that adds every usable entry. */
  method AddUsable(pmm: Pmm, entries: seq<Entry>, orderFirst: nat, orderLast: nat)
    requires pmm.Valid() && pmm.Free() == {} && WellFormed(entries) && orderFirst <= orderLast
    requires pmm.totalFrames == TotalFrames(entries)
    modifies pmm.Footprint()
    ensures pmm.Valid() && pmm.Kept(old(pmm.ram.frames))
    ensures pmm.Free() == UsableFrames(entries, |entries|) - Interval(orderFirst, orderLast) - {0}
  {
    hide Interval, FreeSet, Pmm.Valid, WellFormed, TotalFrames, EntryFrames, SameOutside;
    SameOutsideSelf(pmm.ram.frames, pmm.Free());
    for i := 0 to |entries|
      invariant pmm.Valid() && SameOutside(old(pmm.ram.frames), pmm.ram.frames, pmm.Free())
      invariant pmm.Free() == UsableFrames(entries, i) - Interval(orderFirst, orderLast) - {0}
    {
      UsableApart(entries, i, i);
      if entries[i].usable {
        LastInRange(entries, i);
        ghost var m, free := pmm.ram.frames, pmm.Free();
        AddEntry(pmm, entries[i], orderFirst, orderLast);
        SameOutsideTrans(old(pmm.ram.frames), m, pmm.ram.frames, free, pmm.Free(), pmm.Free());
      } else {
        NotUsable(entries[i]);
      }
    }
  }

  lemma NotUsable(e: Entry)
    requires !e.usable
    ensures EntryFrames(e) == {}
  {
  }

  lemma HolderFound(entries: seq<Entry>, bytes: nat, k: nat)
    requires WellFormed(entries) && bytes == AlignUp(TotalFrames(entries), FRAME_SHIFT) && k <= |entries|
    requires k < |entries| ==> entries[k].usable && bytes <= entries[k].length
    requires forall i: nat :: i < k ==> !(entries[i].usable && bytes <= entries[i].length)
    ensures if k < |entries| then Holds(entries, k) else forall j: nat :: !Holds(entries, j)
  {
    hide AlignUp, TotalFrames;
    forall i: nat | i < |entries| && entries[i].usable
      ensures bytes <= entries[i].length <==> TotalFrames(entries) <= entries[i].length
    {
      RoundedFits(TotalFrames(entries), entries[i].length);
    }
  }

  /** `init` up to the installation of the allocator; `None` is the panic when no usable region is
      large enough for the metadata. */
  method SeedFrames(entries: seq<Entry>, hhdm: nat, ram: Ram) returns (r: Option<Pmm>, ghost holder: nat)
    requires WellFormed(entries) && TotalFrames(entries) <= |ram.frames|
    requires 0 < hhdm && Pointer(hhdm, TotalFrames(entries)) <= WORD_LIMIT
    modifies ram
    ensures r.None? <==> forall k: nat :: !Holds(entries, k)
    ensures r.Some? ==>
              && Holds(entries, holder) && r.value.Valid() && fresh(r.value) && r.value.ram == ram && r.value.hhdm == hhdm
              && r.value.totalFrames == TotalFrames(entries) && fresh(r.value.Footprint() - {ram})
              && r.value.Kept(old(ram.frames))
              && r.value.Free() == UsableFrames(entries, |entries|) - Metadata(entries, holder) - {0}
    ensures r.Some? ==>
              && Reaches(entries, r.value.totalFrames)
              && (forall n: nat :: Reaches(entries, n) ==> r.value.totalFrames <= n)
    ensures r.Some? ==>
              && r.value.totalFrames <= |Metadata(entries, holder)| * FRAME_SIZE < r.value.totalFrames + FRAME_SIZE
              && Metadata(entries, holder) <= EntryFrames(entries[holder])
              && HoldsBytes(Metadata(entries, holder), entries[holder].base, r.value.totalFrames)
  {
    hide Interval, FreeSet, Pmm.Valid, AlignUp, WellFormed, Good, UsableFrames, Highest, SameOutside, Holds, HoldsBytes, Reaches, EntryFrames;
    var highest := HighestEnd(entries);
    var totalFrames := AlignUp(highest, FRAME_SHIFT) / FRAME_SIZE;
    var orderBytes := AlignUp(totalFrames, FRAME_SHIFT);
    var k := FindHolder(entries, orderBytes);
    holder := k;
    HolderFound(entries, orderBytes, k);
    if k == |entries| { return None, holder; }
    TotalIsLeast(entries);
    MetadataFits(entries, k);
    FrameAlignUp(totalFrames);

    var frameOrder := new Byte[totalFrames](_ => 0);
    var pmm := new Pmm(frameOrder, totalFrames, hhdm, ram);
    var orderFirst := entries[k].base / FRAME_SIZE;
    var orderLast := orderFirst + orderBytes / FRAME_SIZE;
    AddUsable(pmm, entries, orderFirst, orderLast);
    return Some(pmm), holder;
  }

  lemma LastInRange(entries: seq<Entry>, i: nat)
    requires i < |entries|
    ensures entries[i].Last() <= TotalFrames(entries)
  {
    hide AlignUp;
    FrameAlignUp(Highest(entries, |entries|));
  }
}

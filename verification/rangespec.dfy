/** Mapping a run of pages, stated on snapshots. */
module RangeSpec {
  import opened BuddyTags
  import opened Memory
  import opened Entries
  import opened Tables
  import opened Views
  import opened VmmSpec

  /** A page of a size is the interval of 4 KiB, 2 MiB or 1 GiB from its aligned start. */
  lemma PageInterval(v: Word, a: Word, size: PageSize)
    requires a % size.Bytes() == 0
    ensures SamePage(v, a, size.Level()) <==>
              a <= v < a + match size case Base => 0x1000 case Large => 0x20_0000 case Huge => 0x4000_0000
    ensures SamePage(v, a, size.Level()) ==> v - v % size.Bytes() == a
  {
    match size
    case Base =>
    case Large =>
    case Huge =>
  }

  /** A request to map from `virt` to `phys`, whose arithmetic stays in range below `end`. */
  datatype Request = Request(virt: Word, phys: PAddr, flags: Word, size: PageSize) {
    ghost predicate Fits(end: nat) {
      && Target(flags) == 0 && virt <= end <= WORD_LIMIT && phys + (end - virt) <= PHYS_LIMIT
    }

    /** The leaf that maps the page of `v`. */
    ghost function LeafFor(v: Word): Word
      requires virt <= v && Fits(v + 1)
    {
      size.Leaf((phys + (if virt <= v - v % size.Bytes() then v - v % size.Bytes() - virt else 0)) / FRAME_SIZE, flags)
    }

    ghost function HitFor(v: Word): Option<Hit>
      requires virt <= v && Fits(v + 1)
    {
      Some(Hit(LeafFor(v), size.Level()))
    }
  }

  /** Canonical addresses from `lo` up to `hi` are mapped as requested; all others are as before. */
  ghost predicate Spans(s: Snap, s': Snap, q: Request, lo: nat, hi: nat)
    requires InRam(s.m, s.tables) && InRam(s'.m, s'.tables) && q.virt <= lo && (lo <= hi ==> q.Fits(hi))
  {
    forall v: Word :: Canonical(v) ==> At(s', v) == if lo <= v < hi then q.HitFor(v) else At(s, v)
  }

  ghost predicate Unmapped(s: Snap, lo: nat, hi: nat)
    requires InRam(s.m, s.tables)
  {
    forall v: Word :: Canonical(v) && lo <= v < hi ==> At(s, v) == None
  }

  /** Tables that both have stand in the same frames. */
  ghost predicate Common(t: TableMap, t': TableMap) {
    forall p :: p in t && p in t' ==> t'[p] == t[p]
  }

  /** What holds between the pages of a range: mapping has covered `lo` to `hi` and nothing else. */
  ghost predicate Progress(s0: Snap, s: Snap, q: Request, lo: nat, hi: nat) {
    && Evolves(s0, s) && q.virt <= lo && q.virt <= hi && q.Fits(hi) && Spans(s0, s, q, lo, hi)
    && Unmapped(s0, q.virt, hi) && Common(s0.tables, s.tables)
    && (Tidy(s0.m, s0.tables) ==> Tidy(s.m, s.tables))
  }

  lemma ProgressStart(s: Snap, q: Request)
    requires Sound(s) && q.Fits(q.virt)
    ensures Progress(s, s, q, q.virt, q.virt)
    ensures Extends(s.tables, s.tables) && AllCanonical(q.virt, 0, q.size.Bytes())
  {
    hide Shaped, Injective, Good, FreeSet, View, Canonical, Tidy, Request.HitFor;
  }

  lemma SpansPage(s0: Snap, s: Snap, s': Snap, q: Request, a: Word)
    requires InRam(s0.m, s0.tables) && InRam(s.m, s.tables) && InRam(s'.m, s'.tables)
    requires q.virt <= a && q.Fits(a + q.size.Bytes()) && a % q.size.Bytes() == 0 && Spans(s0, s, q, q.virt, a)
    requires PageBecomes(s, s', a, q.size.Level(), q.HitFor(a))
    ensures Spans(s0, s', q, q.virt, a + q.size.Bytes())
  {
    hide View, Canonical, SamePage, PageSize.Bytes, PageSize.Leaf;
    forall v: Word | Canonical(v)
      ensures At(s', v) == if q.virt <= v < a + q.size.Bytes() then q.HitFor(v) else At(s0, v)
    {
      PageInterval(v, a, q.size);
      if a <= v < a + q.size.Bytes() { assert q.HitFor(v) == q.HitFor(a); }
    }
  }

  lemma UnmappedPage(s0: Snap, s: Snap, q: Request, a: Word)
    requires InRam(s0.m, s0.tables) && InRam(s.m, s.tables)
    requires q.virt <= a && q.Fits(a) && a % q.size.Bytes() == 0 && Spans(s0, s, q, q.virt, a)
    requires Unmapped(s0, q.virt, a) && !SomeMapped(s, a, q.size.Level())
    ensures Unmapped(s0, q.virt, a + q.size.Bytes())
  {
    hide View, Canonical, SamePage, PageSize.Bytes, Request.HitFor;
    forall v: Word | Canonical(v) && q.virt <= v < a + q.size.Bytes() ensures At(s0, v) == None {
      PageInterval(v, a, q.size);
    }
  }

  /** Past the part mapped so far, mapped is mapped before. */
  lemma MappedBefore(s0: Snap, s: Snap, q: Request, a: Word)
    requires InRam(s0.m, s0.tables) && InRam(s.m, s.tables) && q.virt <= a && q.Fits(a)
    requires Spans(s0, s, q, q.virt, a) && a % q.size.Bytes() == 0
    ensures SomeMapped(s, a, q.size.Level()) <==> SomeMapped(s0, a, q.size.Level())
  {
    hide Shaped, Injective, Good, FreeSet, View, Canonical, SameOutside, Pool, PageSize.Bytes, SamePage, Tidy, Request.HitFor, Unmapped;
    forall v: Word | Canonical(v) && SamePage(v, a, q.size.Level()) ensures At(s, v) == At(s0, v) {
      PageInterval(v, a, q.size);
    }
  }

  /** One more page mapped. */
  lemma ProgressMap(s0: Snap, s: Snap, s': Snap, q: Request, a: Word)
    requires Progress(s0, s, q, q.virt, a) && q.Fits(a + q.size.Bytes()) && a % q.size.Bytes() == 0
    requires Extends(s0.tables, s.tables)
    requires MapsPage(s, s', a, q.size.Level(), q.LeafFor(a)) && !SomeMapped(s, a, q.size.Level())
    ensures Progress(s0, s', q, q.virt, a + q.size.Bytes()) && Extends(s0.tables, s'.tables)
  {
    hide Shaped, Injective, Good, FreeSet, View, Canonical, SameOutside, Pool, PageSize.Bytes, SamePage, Tidy, Request.LeafFor, KeepsSlots, NewTablesUsed, Unmapped, Spans, PageBecomes;
    EvolvesTrans(s0, s, s');
    SpansPage(s0, s, s', q, a);
    UnmappedPage(s0, s, q, a);
    if Tidy(s0.m, s0.tables) { MapKeepsTidy(s, s', a, q.size.Level(), q.LeafFor(a)); }
  }

  /** A failed page changes nothing. */
  lemma ProgressUndone(s0: Snap, s: Snap, s': Snap, q: Request, lo: nat, hi: nat)
    requires Progress(s0, s, q, lo, hi) && Undone(s, s')
    ensures Progress(s0, s', q, lo, hi)
  {
    hide Shaped, Injective, Good, FreeSet, View, Canonical, SameOutside, Pool, Tidy, Request.HitFor, KeepsSlots, Unmapped;
    EvolvesTrans(s0, s, s');
    if Tidy(s0.m, s0.tables) { UndoneKeepsTidy(s, s'); }
    forall v: Word | Canonical(v) ensures At(s', v) == if lo <= v < hi then q.HitFor(v) else At(s0, v) {
      assert At(s', v) == At(s, v);
    }
  }

  lemma SpansWithoutPage(s0: Snap, s: Snap, s': Snap, q: Request, a: Word, hi: nat)
    requires InRam(s0.m, s0.tables) && InRam(s.m, s.tables) && InRam(s'.m, s'.tables)
    requires q.virt <= a && a + q.size.Bytes() <= hi && q.Fits(hi) && a % q.size.Bytes() == 0
    requires Spans(s0, s, q, a, hi) && Unmapped(s0, q.virt, hi) && PageBecomes(s, s', a, q.size.Level(), None)
    ensures Spans(s0, s', q, a + q.size.Bytes(), hi)
  {
    hide View, Canonical, SamePage, PageSize.Bytes, Request.HitFor;
    forall v: Word | Canonical(v)
      ensures At(s', v) == if a + q.size.Bytes() <= v < hi then q.HitFor(v) else At(s0, v)
    {
      PageInterval(v, a, q.size);
    }
  }

  /** One page rolled back. */
  lemma ProgressUnmap(s0: Snap, s: Snap, s': Snap, q: Request, a: Word, hi: nat)
    requires Progress(s0, s, q, a, hi) && a + q.size.Bytes() <= hi && a % q.size.Bytes() == 0
    requires UnmapsPage(s, s', a, q.size.Level(), Root)
    ensures Progress(s0, s', q, a + q.size.Bytes(), hi)
  {
    hide Shaped, Injective, Good, FreeSet, View, Canonical, SameOutside, Pool, PageSize.Bytes, SamePage, Tidy, Unmapped, Spans, PageBecomes, EmptyTable;
    EvolvesTrans(s0, s, s');
    SpansWithoutPage(s0, s, s', q, a, hi);
    if Tidy(s0.m, s0.tables) { UnmapKeepsTidy(s, s', a, q.size.Level()); }
  }

  /** A failed range: translations are as before, and in tidy tables so are the tables and the
      allocator's free blocks. */
  ghost predicate Restored(s0: Snap, s: Snap) {
    && Evolves(s0, s) && (forall v: Word :: Canonical(v) ==> At(s, v) == At(s0, v))
    && (Tidy(s0.m, s0.tables) ==> s.tables == s0.tables && s.tags == s0.tags && Tidy(s.m, s.tables))
  }

  /** A mapped range: exactly its pages, none of which was mapped, translate as requested. */
  ghost predicate Covered(s0: Snap, s: Snap, q: Request, end: nat) {
    && Evolves(s0, s) && q.virt <= end && q.Fits(end) && Spans(s0, s, q, q.virt, end)
    && Unmapped(s0, q.virt, end) && Extends(s0.tables, s.tables)
    && (Tidy(s0.m, s0.tables) ==> Tidy(s.m, s.tables))
  }

  lemma ProgressEnd(s0: Snap, s: Snap, q: Request, hi: nat)
    requires Progress(s0, s, q, hi, hi)
    ensures Restored(s0, s)
  {
    hide Shaped, Injective, Good, FreeSet, View, Canonical, SameOutside, Pool, Tidy, Request.HitFor;
    assert forall v: Word :: Canonical(v) ==> At(s, v) == At(s0, v);
    if Tidy(s0.m, s0.tables) { SameViewSameFrames(s0, s); }
  }

  lemma ProgressCovers(s0: Snap, s: Snap, q: Request, hi: nat)
    requires Progress(s0, s, q, q.virt, hi) && Extends(s0.tables, s.tables)
    ensures Covered(s0, s, q, hi) && InRam(s.m, s.tables)
  {
    hide Shaped, Injective, Good, Pool, SameOutside, Spans, Unmapped, Tidy;
  }

  /** The start of page `i`. */
  function PageAddress(start: nat, i: nat, stride: nat): nat {
    start + i * stride
  }

  ghost predicate AllCanonical(start: Word, n: nat, stride: nat) {
    forall i: nat :: i < n ==> PageAddress(start, i, stride) < WORD_LIMIT && Canonical(PageAddress(start, i, stride))
  }

  lemma NextCanonical(start: Word, n: nat, stride: nat)
    requires AllCanonical(start, n, stride) && PageAddress(start, n, stride) < WORD_LIMIT
    requires Canonical(PageAddress(start, n, stride))
    ensures AllCanonical(start, n + 1, stride)
  {
  }

  /** A page inside the mapped part is mapped by a leaf of the requested size. */
  lemma PageIsMapped(s0: Snap, s: Snap, q: Request, a: Word, hi: nat)
    requires Progress(s0, s, q, a, hi) && a < hi && Canonical(a)
    ensures At(s, a).Some? && At(s, a).value.level == q.size.Level()
  {
    hide Sound, Pool, SameOutside, Tidy, View, Canonical, Unmapped, Request.LeafFor;
  }

  lemma LeafInPage(q: Request, a: Word, v: Word)
    requires q.virt <= a <= v && q.Fits(v + 1) && v - v % q.size.Bytes() == a
    ensures q.LeafFor(v) == q.size.Leaf((q.phys + (a - q.virt)) / FRAME_SIZE, q.flags)
  {
    hide PageSize.Bytes, PageSize.Leaf;
  }

  // ---------------------------------------------------------------- unmapping a run of pages

  /** Canonical addresses from `lo` up to `hi` are unmapped; all others are as before. */
  ghost predicate Cleared(s0: Snap, s: Snap, lo: nat, hi: nat) {
    && Evolves(s0, s)
    && (forall v: Word :: Canonical(v) ==> At(s, v) == if lo <= v < hi then None else At(s0, v))
    && (Tidy(s0.m, s0.tables) ==> Tidy(s.m, s.tables))
  }

  lemma ClearedStart(s: Snap, lo: nat)
    requires Sound(s)
    ensures Cleared(s, s, lo, lo) && InRam(s.m, s.tables)
  {
    hide Shaped, Injective, Good, FreeSet, View, Canonical, Tidy;
    SameOutsideSelf(s.m, Pool(s));
  }

  lemma ClearedPage(s0: Snap, s: Snap, s': Snap, lo: nat, a: Word, size: PageSize)
    requires Cleared(s0, s, lo, a) && lo <= a && a % size.Bytes() == 0 && UnmapsPage(s, s', a, size.Level(), Root)
    ensures Cleared(s0, s', lo, a + size.Bytes())
  {
    hide Shaped, Injective, Good, FreeSet, View, Canonical, SameOutside, Pool, PageSize.Bytes, SamePage, Tidy, EmptyTable;
    EvolvesTrans(s0, s, s');
    if Tidy(s0.m, s0.tables) { UnmapKeepsTidy(s, s', a, size.Level()); }
    forall v: Word | Canonical(v) ensures At(s', v) == if lo <= v < a + size.Bytes() then None else At(s0, v) {
      PageInterval(v, a, size);
    }
  }

  /** Past the part cleared so far nothing has changed. */
  lemma ClearedAhead(s0: Snap, s: Snap, lo: nat, a: Word)
    requires Cleared(s0, s, lo, a) && Canonical(a)
    ensures At(s, a) == At(s0, a)
  {
    hide Sound, Pool, SameOutside, Tidy, View, Canonical;
  }
}

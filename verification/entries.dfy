/** Page-table entries and virtual addresses of 4-level paging (Intel SDM volume 3A, section 4.5).

  An entry is a 64-bit word: bit 0 is the present flag, bit 7 the page-size flag and bits 12 to 51
  the frame address, the bits of `ENTRY_ADDR_MASK`.  Tables have levels 3 (PML4) down to 0 (PT).
 */
module Entries {
  import Alignment
  import opened Memory

  const TOP_LEVEL: nat := 3
  const ADDRESS_FRAMES: nat := 0x100_0000_0000
  const PHYS_LIMIT: nat := 0x10_0000_0000_0000
  const PRESENT: nat := 1
  const PAGE_SIZE_FLAG: nat := 0x80
  const PARENT_FLAGS: nat := 7
  const NO_EXECUTE: nat := 0x8000_0000_0000_0000

  predicate Present(w: Word) {
    w % 2 == 1
  }

  predicate PageFlag(w: Word) {
    w / PAGE_SIZE_FLAG % 2 == 1
  }

  /** The frame a present entry names: `(entry & ENTRY_ADDR_MASK) >> 12`. */
  function Target(w: Word): nat {
    w / FRAME_SIZE % ADDRESS_FRAMES
  }

  /** `entry & !ENTRY_ADDR_MASK`. */
  function FlagBits(w: Word): (f: Word)
    ensures Target(f) == 0 && Present(f) == Present(w) && PageFlag(f) == PageFlag(w)
  {
    var hi, lo := w / PHYS_LIMIT, w % FRAME_SIZE;
    assert w == Target(w) * FRAME_SIZE + (hi * PHYS_LIMIT + lo);
    EntryBits(Target(w), hi, lo);
    EntryBits(0, hi, lo);
    w - Target(w) * FRAME_SIZE
  }

  /** The mask 0x000f_ffff_ffff_f000 splits an entry into the address it names and its flag bits. */
  lemma EntrySplits(w: Word)
    ensures Target(w) * 0x1000 == w % 0x10_0000_0000_0000 - w % 0x1000
    ensures FlagBits(w) == w - w % 0x10_0000_0000_0000 + w % 0x1000
  {
    var q, r := w / 0x1000, w % 0x1000;
    assert w / 0x10_0000_0000_0000 == q / ADDRESS_FRAMES;
  }

  /** A present entry that names a table of the next lower level. */
  predicate Inner(level: nat, w: Word) {
    Present(w) && level > 0 && !(level <= 2 && PageFlag(w))
  }

  /** `Entry::new(4096 * frame, flags)`: the disjoint bits joined. */
  function MakeEntry(frame: nat, flags: Word): (w: Word)
    requires frame < ADDRESS_FRAMES && Target(flags) == 0
    ensures Target(w) == frame && FlagBits(w) == flags
    ensures Present(w) == Present(flags) && PageFlag(w) == PageFlag(flags)
  {
    var hi, lo := flags / PHYS_LIMIT, flags % FRAME_SIZE;
    assert flags == hi * PHYS_LIMIT + lo;
    EntryBits(frame, hi, lo);
    frame * FRAME_SIZE + flags
  }

  lemma EntryBits(frame: nat, hi: nat, lo: nat)
    requires frame < ADDRESS_FRAMES && lo < FRAME_SIZE && hi * PHYS_LIMIT + lo < WORD_LIMIT
    ensures var w := frame * FRAME_SIZE + (hi * PHYS_LIMIT + lo);
            && w < WORD_LIMIT && w / FRAME_SIZE % ADDRESS_FRAMES == frame
            && w % 2 == (hi * PHYS_LIMIT + lo) % 2
            && w / PAGE_SIZE_FLAG % 2 == (hi * PHYS_LIMIT + lo) / PAGE_SIZE_FLAG % 2
  {
    assert (frame * FRAME_SIZE + (hi * PHYS_LIMIT + lo)) / FRAME_SIZE == hi * ADDRESS_FRAMES + frame;
    LowBits(frame, hi, lo / PAGE_SIZE_FLAG, lo % PAGE_SIZE_FLAG);
  }

  lemma LowBits(frame: nat, hi: nat, q: nat, r: nat)
    requires r < PAGE_SIZE_FLAG
    ensures var flags := hi * PHYS_LIMIT + (q * PAGE_SIZE_FLAG + r);
            var w := frame * FRAME_SIZE + flags;
            w % 2 == flags % 2 && w / PAGE_SIZE_FLAG % 2 == flags / PAGE_SIZE_FLAG % 2
  {
    var n := hi * 0x2000_0000_0000 + q;
    var flags := n * PAGE_SIZE_FLAG + r;
    assert flags / PAGE_SIZE_FLAG == n;
    assert (frame * FRAME_SIZE + flags) / PAGE_SIZE_FLAG == 2 * (frame * 16) + n;
    EvenPart(frame * 16, n);
    EvenPart(frame * 2048, flags);
  }

  lemma EvenPart(x: nat, n: nat)
    ensures (2 * x + n) % 2 == n % 2
  {
  }

  /** P, RW and US, and no other bit. */
  predicate ParentFlags(f: Word) {
    Present(f) && Bit(f, 2) == 1 && Bit(f, 4) == 1 && f / 8 == 0
  }

  /** The entry `map` writes for a table. */
  function TableEntry(frame: nat): (w: Word)
    requires frame < ADDRESS_FRAMES
    ensures Present(w) && !PageFlag(w) && Target(w) == frame && ParentFlags(FlagBits(w))
  {
    MakeEntry(frame, PARENT_FLAGS)
  }

  function Bit(w: Word, weight: nat): nat
    requires weight > 0
  {
    w / weight % 2
  }

  /** `flags | P` of a 4 KiB leaf: every other bit is the argument's. */
  function BaseLeafFlags(flags: Word): (f: Word)
    ensures Present(f) && f / 2 == flags / 2 && Target(f) == Target(flags)
  {
    if flags % 2 == 1 then flags else flags + PRESENT
  }

  /** `f` has P and PS, the bits RW, US, PWT, PCD, G and XD of `flags`, and no other bit. */
  predicate LargeFlagsOf(f: Word, flags: Word) {
    && Present(f) && PageFlag(f)
    && Bit(f, 2) == Bit(flags, 2) && Bit(f, 4) == Bit(flags, 4) && Bit(f, 8) == Bit(flags, 8)
    && Bit(f, 16) == Bit(flags, 16) && Bit(f, 0x100) == Bit(flags, 0x100) && Bit(f, NO_EXECUTE) == Bit(flags, NO_EXECUTE)
    && Bit(f, 32) == 0 && Bit(f, 64) == 0 && f / 0x200 % 0x40_0000_0000_0000 == 0
  }

  /** `pd_leaf` and `pdpt_leaf`. */
  function LargeLeafFlags(flags: Word): (f: Word)
    ensures LargeFlagsOf(f, flags) && Target(f) == 0
  {
    var rw, us, pwt, pcd := Bit(flags, 2), Bit(flags, 4), Bit(flags, 8), Bit(flags, 16);
    var global, xd := Bit(flags, 0x100), Bit(flags, NO_EXECUTE);
    var f := PRESENT + 2 * rw + 4 * us + 8 * pwt + 16 * pcd + PAGE_SIZE_FLAG + 0x100 * global + NO_EXECUTE * xd;
    AccessBits(f, rw, us, pwt, pcd, 4 + 8 * global + NO_EXECUTE / 32 * xd);
    AboveAccess(f, 2 * rw + 4 * us + 8 * pwt + 16 * pcd, global, xd);
    f
  }

  lemma BitAt(f: nat, weight: nat, lo: nat, b: nat, hi: nat)
    requires lo < weight && b <= 1 && f == (b + 2 * hi) * weight + lo
    ensures f / weight % 2 == b
  {
    Alignment.RemainderUnique(f, weight, b + 2 * hi, lo);
  }

  lemma AccessBits(f: nat, rw: nat, us: nat, pwt: nat, pcd: nat, hi: nat)
    requires rw <= 1 && us <= 1 && pwt <= 1 && pcd <= 1
    requires f == PRESENT + 2 * rw + 4 * us + 8 * pwt + 16 * pcd + 32 * hi
    ensures f / 2 % 2 == rw && f / 4 % 2 == us && f / 8 % 2 == pwt && f / 16 % 2 == pcd
  {
    BitAt(f, 2, 1, rw, us + 2 * pwt + 4 * pcd + 8 * hi);
    BitAt(f, 4, 1 + 2 * rw, us, pwt + 2 * pcd + 4 * hi);
    BitAt(f, 8, 1 + 2 * rw + 4 * us, pwt, pcd + 2 * hi);
    BitAt(f, 16, 1 + 2 * rw + 4 * us + 8 * pwt, pcd, hi);
  }

  lemma AboveAccess(f: nat, access: nat, global: nat, xd: nat)
    requires access % 2 == 0 && access < 32 && global <= 1 && xd <= 1
    requires f == PRESENT + access + PAGE_SIZE_FLAG + 0x100 * global + NO_EXECUTE * xd
    ensures f < WORD_LIMIT && f % 2 == 1 && f / 32 % 2 == 0 && f / 64 % 2 == 0
    ensures f / PAGE_SIZE_FLAG % 2 == 1 && f / 0x100 % 2 == global && f / NO_EXECUTE % 2 == xd
    ensures f / 0x200 % 0x40_0000_0000_0000 == 0 && f / FRAME_SIZE % ADDRESS_FRAMES == 0
  {
    var lo := PRESENT + access;
    BitAt(f, 32, lo, 0, 2 + 4 * global + NO_EXECUTE / 64 * xd);
    BitAt(f, 64, lo, 0, 1 + 2 * global + NO_EXECUTE / 128 * xd);
    BitAt(f, PAGE_SIZE_FLAG, lo, 1, global + NO_EXECUTE / 256 * xd);
    BitAt(f, 0x100, lo + PAGE_SIZE_FLAG, global, NO_EXECUTE / 512 * xd);
    BitAt(f, NO_EXECUTE, f - NO_EXECUTE * xd, xd, 0);
    Alignment.RemainderUnique(f, 0x200, NO_EXECUTE / 0x200 * xd, f - NO_EXECUTE * xd);
    Alignment.RemainderUnique(f, FRAME_SIZE, NO_EXECUTE / FRAME_SIZE * xd, f - NO_EXECUTE * xd);
  }

  datatype PageSize = Base | Large | Huge {
    function Level(): nat {
      match this case Base => 0 case Large => 1 case Huge => 2
    }

    function Bytes(): (b: nat)
      ensures b == (match this case Base => 0x1000 case Large => 0x20_0000 case Huge => 0x4000_0000)
      ensures b % FRAME_SIZE == 0
    {
      Span(Level())
    }

    /** The flag bits of a leaf of this size requested with `flags`. */
    predicate FlagsOf(f: Word, flags: Word) {
      if Base? then Present(f) && f / 2 == flags / 2 else LargeFlagsOf(f, flags)
    }

    /** The leaf entry `map` writes for this size. */
    function Leaf(frame: nat, flags: Word): (w: Word)
      requires frame < ADDRESS_FRAMES && Target(flags) == 0
      ensures Present(w) && !Inner(Level(), w) && Target(w) == frame
      ensures FlagsOf(FlagBits(w), flags)
    {
      if Base? then MakeEntry(frame, BaseLeafFlags(flags)) else MakeEntry(frame, LargeLeafFlags(flags))
    }
  }

  /** Bytes that one entry of a table of the given level covers. */
  function Span(level: nat): nat {
    if level == 0 then 0x1000
    else if level == 1 then 0x20_0000
    else if level == 2 then 0x4000_0000
    else 0x80_0000_0000
  }

  /** `pml4_index`, `pdpt_index`, `pd_index`, `pt_index`. */
  function Index(v: Word, level: nat): (i: nat)
    ensures i < FRAME_WORDS
  {
    v / Span(level) % FRAME_WORDS
  }

  predicate Canonical(v: Word) {
    var hi := v / 0x8000_0000_0000;
    hi == 0 || hi == 0x1_ffff
  }

  /** Two addresses lie in the same page of the given level. */
  predicate SamePage(u: Word, v: Word, level: nat) {
    u / Span(level) == v / Span(level)
  }

  /** For canonical addresses the indices down to a level identify the page. */
  lemma IndicesIdentifyPage(u: Word, v: Word, level: nat)
    requires Canonical(u) && Canonical(v) && level <= TOP_LEVEL
    ensures SamePage(u, v, level) <==> Index(u, 3) == Index(v, 3)
                                       && (level <= 2 ==> Index(u, 2) == Index(v, 2))
                                       && (level <= 1 ==> Index(u, 1) == Index(v, 1))
                                       && (level <= 0 ==> Index(u, 0) == Index(v, 0))
  {
    TopIndexIdentifies(u, v);
    if level <= 2 { NextIndex(u, v, 2); }
    if level <= 1 { NextIndex(u, v, 1); }
    if level <= 0 { NextIndex(u, v, 0); }
  }

  lemma TopIndexIdentifies(u: Word, v: Word)
    requires Canonical(u) && Canonical(v)
    ensures SamePage(u, v, 3) <==> Index(u, 3) == Index(v, 3)
  {
    assert u / 0x8000_0000_0000 == u / 0x80_0000_0000 / 256;
    assert v / 0x8000_0000_0000 == v / 0x80_0000_0000 / 256;
    SignExtended(u / 0x80_0000_0000, v / 0x80_0000_0000);
  }

  /** Numbers that continue bit 8 upwards are determined by their low nine bits. */
  lemma SignExtended(x: nat, y: nat)
    requires x / 256 == 0 || x / 256 == 0x1_ffff
    requires y / 256 == 0 || y / 256 == 0x1_ffff
    ensures x == y <==> x % 512 == y % 512
  {
  }

  lemma NextIndex(u: Word, v: Word, level: nat)
    requires level < TOP_LEVEL
    ensures SamePage(u, v, level) <==> SamePage(u, v, level + 1) && Index(u, level) == Index(v, level)
  {
    SpanStep(u, level);
    SpanStep(v, level);
    SameQuotient(u / Span(level), v / Span(level));
  }

  lemma SpanStep(v: Word, level: nat)
    requires level < TOP_LEVEL
    ensures v / Span(level + 1) == v / Span(level) / FRAME_WORDS
  {
    if level == 0 {
      assert v / 0x20_0000 == v / 0x1000 / 512;
    } else if level == 1 {
      assert v / 0x4000_0000 == v / 0x20_0000 / 512;
    } else {
      assert v / 0x80_0000_0000 == v / 0x4000_0000 / 512;
    }
  }

  /** The four indices and the offset are the digits of an address: nine bits each, then twelve. */
  lemma IndicesAreDigits(v: Word)
    ensures v % 0x1_0000_0000_0000 ==
              (((Index(v, 3) * 512 + Index(v, 2)) * 512 + Index(v, 1)) * 512 + Index(v, 0)) * 0x1000 + v % 0x1000
  {
    SpanStep(v, 0);
    SpanStep(v, 1);
    SpanStep(v, 2);
    var q := v / 0x80_0000_0000;
    assert v / 0x1_0000_0000_0000 == q / 512;
    assert v == (((q * 512 + Index(v, 2)) * 512 + Index(v, 1)) * 512 + Index(v, 0)) * 0x1000 + v % 0x1000;
  }

  lemma SameQuotient(x: nat, y: nat)
    ensures x == y <==> x / 512 == y / 512 && x % 512 == y % 512
  {
  }

  /** The canonical address with the given table indices. */
  function AddressOf(a: nat, b: nat, c: nat, d: nat): (v: Word)
    requires a < 512 && b < 512 && c < 512 && d < 512
    ensures Canonical(v)
    ensures Index(v, 3) == a && Index(v, 2) == b && Index(v, 1) == c && Index(v, 0) == d
  {
    var top := if a < 256 then a else a + 0x1ff_fe00;
    Digits(top, b, c, d);
    assert top % 512 == a && (top / 256 == 0 || top / 256 == 0x1_ffff);
    (((top * 512 + b) * 512 + c) * 512 + d) * 0x1000
  }

  lemma Digits(top: nat, b: nat, c: nat, d: nat)
    requires top < 0x200_0000 && b < 512 && c < 512 && d < 512
    ensures var v := (((top * 512 + b) * 512 + c) * 512 + d) * 0x1000;
            && v < WORD_LIMIT && v / 0x80_0000_0000 == top && v / 0x8000_0000_0000 == top / 256
            && v / 0x4000_0000 % 512 == b && v / 0x20_0000 % 512 == c && v / 0x1000 % 512 == d
  {
    var x2 := top * 512 + b;
    var x1 := x2 * 512 + c;
    var x0 := x1 * 512 + d;
    var v := x0 * 0x1000;
    Digit(top, b);
    Digit(x2, c);
    Digit(x1, d);
    assert v < WORD_LIMIT && v / 0x1000 == x0;
    SpanStep(v, 0);
    SpanStep(v, 1);
    SpanStep(v, 2);
    assert v / 0x8000_0000_0000 == v / 0x80_0000_0000 / 256;
  }

  lemma Digit(x: nat, d: nat)
    requires d < 512
    ensures (x * 512 + d) / 512 == x && (x * 512 + d) % 512 == d
  {
  }
}

/** How `add_range` cuts an interval of frames into aligned blocks (kernel/src/mm/pmm.rs:247-262). */
module Ranges {
  import opened Alignment
  import opened BuddyTags

  function Min(a: nat, b: nat): nat {
    if a <= b then a else b
  }

  /** The order of the next block: as large as alignment, size and `MAX_ORDER` allow. */
  function ChunkOrder(start: nat, count: nat): (o: nat)
    requires count > 0
    ensures o <= MAX_ORDER && Aligned(start, o) && Pow2(o) <= count
    ensures forall p: nat :: o < p <= MAX_ORDER ==> !Aligned(start, p) || count < Pow2(p)
  {
    hide Pow2, Down;
    var alignOrder := if start == 0 then MAX_ORDER else TrailingZeros(start);
    var sizeOrder := Log2(count);
    var o := Min(Min(alignOrder, sizeOrder), MAX_ORDER);
    ChunkOrderFits(start, count, alignOrder, sizeOrder, o);
    o
  }

  lemma ChunkOrderFits(start: nat, count: nat, a: nat, s: nat, o: nat)
    requires o == Min(Min(a, s), MAX_ORDER)
    requires if start == 0 then a == MAX_ORDER else Aligned(start, a) && !Aligned(start, a + 1)
    requires Pow2(s) <= count < 2 * Pow2(s)
    ensures Aligned(start, o) && Pow2(o) <= count
    ensures forall p: nat :: o < p <= MAX_ORDER ==> !Aligned(start, p) || count < Pow2(p)
  {
    hide Pow2, Down;
    if start == 0 { ZeroAligned(o); } else { AlignedSmaller(start, o, a); }
    Pow2Monotone(o, s);
    forall p: nat | o < p <= MAX_ORDER ensures !Aligned(start, p) || count < Pow2(p) {
      if s < p { Pow2Monotone(s, p); }
      if start != 0 && a < p && Aligned(start, p) { AlignedSmaller(start, a + 1, p); }
    }
  }

  /** The orders `add_range` frees, in order. */
  ghost function Chunks(start: nat, count: nat): seq<nat>
    decreases count
  {
    if count == 0 then [] else
      var o := ChunkOrder(start, count);
      [o] + Chunks(start + Pow2(o), count - Pow2(o))
  }

  lemma ChunksStep(start: nat, count: nat)
    requires count > 0
    ensures var o := ChunkOrder(start, count);
            |Chunks(start, count)| == 1 + |Chunks(start + Pow2(o), count - Pow2(o))|
  {
    hide ChunkOrder, Pow2;
  }

  ghost predicate StrictlyRising(s: seq<nat>) {
    forall i: nat, j: nat :: i < j < |s| ==> s[i] < s[j]
  }

  ghost predicate StrictlyFalling(s: seq<nat>) {
    forall i: nat, j: nat :: i < j < |s| ==> s[i] > s[j]
  }

  ghost predicate Between(s: seq<nat>, lo: nat, hi: nat) {
    forall i: nat :: i < |s| ==> lo <= s[i] < hi
  }

  /** Orders rise strictly, stay at `MAX_ORDER`, then fall strictly. */
  ghost predicate Mountain(c: seq<nat>, rise: seq<nat>, flat: nat, fall: seq<nat>) {
    && c == rise + seq(flat, _ => MAX_ORDER) + fall
    && StrictlyRising(rise) && Between(rise, 0, MAX_ORDER)
    && StrictlyFalling(fall) && Between(fall, 0, MAX_ORDER)
  }

  lemma {:induction false} ChunksFall(start: nat, count: nat, k: nat)
    requires k <= MAX_ORDER && Aligned(start, k) && count < Pow2(k)
    ensures StrictlyFalling(Chunks(start, count)) && Between(Chunks(start, count), 0, k)
    decreases count
  {
    hide Pow2, Down, ChunkOrder;
    if count > 0 {
      var o := ChunkOrder(start, count);
      if k <= o { Pow2Monotone(k, o); }
      assert count < Pow2(o + 1) by {
        if Pow2(o + 1) <= count { AlignedSmaller(start, o + 1, k); }
      }
      Pow2Next(o);
      Pow2Aligned(o);
      AlignedAdd(start, Pow2(o), o);
      ChunksFall(start + Pow2(o), count - Pow2(o), o);
    }
  }

  lemma {:induction false} ChunksFlat(start: nat, count: nat) returns (flat: nat, fall: seq<nat>)
    requires Aligned(start, MAX_ORDER)
    ensures Mountain(Chunks(start, count), [], flat, fall) && flat * Pow2(MAX_ORDER) <= count
    decreases count
  {
    hide Pow2, Down, ChunkOrder, Mountain, StrictlyFalling, StrictlyRising;
    if count < Pow2(MAX_ORDER) {
      ChunksFall(start, count, MAX_ORDER);
      flat, fall := 0, Chunks(start, count);
      FallAlone(fall, MAX_ORDER);
    } else {
      var o := ChunkOrder(start, count);
      assert o == MAX_ORDER;
      Pow2Aligned(o);
      AlignedAdd(start, Pow2(o), o);
      flat, fall := ChunksFlat(start + Pow2(o), count - Pow2(o));
      FlatFirst(Chunks(start + Pow2(o), count - Pow2(o)), flat, fall);
      flat := flat + 1;
    }
  }

  lemma FallAlone(c: seq<nat>, k: nat)
    requires k <= MAX_ORDER && StrictlyFalling(c) && Between(c, 0, k)
    ensures Mountain(c, [], 0, c)
  {
    assert c == [] + seq(0, _ => MAX_ORDER) + c;
  }

  lemma FlatFirst(c: seq<nat>, flat: nat, fall: seq<nat>)
    requires Mountain(c, [], flat, fall)
    ensures Mountain([MAX_ORDER] + c, [], flat + 1, fall)
  {
    assert [MAX_ORDER] + c == [] + seq(flat + 1, _ => MAX_ORDER) + fall;
  }

  lemma AlignedAfter(f: nat, a: nat)
    requires Aligned(f, a) && !Aligned(f, a + 1)
    ensures Aligned(f + Pow2(a), a + 1)
  {
    hide Pow2, Down;
    Pow2Next(a);
    DownSplit(f, a);
    DownAligned(f, a + 1);
    Pow2Aligned(a + 1);
    AlignedAdd(Down(f, a + 1), Pow2(a + 1), a + 1);
  }

  lemma {:induction false} ChunksRise(start: nat, count: nat, a: nat)
    returns (rise: seq<nat>, flat: nat, fall: seq<nat>)
    requires a <= MAX_ORDER && Aligned(start, a)
    ensures Mountain(Chunks(start, count), rise, flat, fall)
    ensures Between(rise, a, MAX_ORDER) && flat * Pow2(MAX_ORDER) <= count
    decreases count, MAX_ORDER - a
  {
    hide Pow2, Down, ChunkOrder, Mountain, StrictlyFalling, StrictlyRising;
    if a == MAX_ORDER {
      flat, fall := ChunksFlat(start, count);
      rise := [];
    } else if count < Pow2(a) {
      ChunksFall(start, count, a);
      rise, flat, fall := [], 0, Chunks(start, count);
      FallAlone(fall, a);
    } else if Aligned(start, a + 1) {
      rise, flat, fall := ChunksRise(start, count, a + 1);
    } else {
      var o := ChunkOrder(start, count);
      assert o == a by {
        if o > a { AlignedSmaller(start, a + 1, o); }
      }
      AlignedAfter(start, a);
      rise, flat, fall := ChunksRise(start + Pow2(o), count - Pow2(o), a + 1);
      RiseFirst(Chunks(start + Pow2(o), count - Pow2(o)), rise, flat, fall, a);
      rise := [a] + rise;
    }
  }

  lemma RiseFirst(c: seq<nat>, rise: seq<nat>, flat: nat, fall: seq<nat>, a: nat)
    requires Mountain(c, rise, flat, fall) && Between(rise, a + 1, MAX_ORDER) && a < MAX_ORDER
    ensures Mountain([a] + c, [a] + rise, flat, fall)
  {
    assert [a] + c == ([a] + rise) + seq(flat, _ => MAX_ORDER) + fall;
  }

  lemma {:induction false} RisingIsShort(s: seq<nat>, lo: nat, hi: nat)
    requires lo <= hi && StrictlyRising(s) && Between(s, lo, hi)
    ensures |s| <= hi - lo
    decreases |s|
  {
    if s != [] {
      var top := s[|s| - 1];
      assert s[0] <= top;
      RisingIsShort(s[..|s| - 1], lo, top);
    }
  }

  lemma {:induction false} FallingIsShort(s: seq<nat>, lo: nat, hi: nat)
    requires lo <= hi && StrictlyFalling(s) && Between(s, lo, hi)
    ensures |s| <= hi - lo
    decreases |s|
  {
    if s != [] { FallingIsShort(s[1..], lo, s[0]); }
  }

  /** The shape of the cut, and so the number of `free_pages` calls: at most count / 2048 + 22. */
  lemma ChunksAreFew(start: nat, count: nat)
    ensures exists rise: seq<nat>, flat: nat, fall: seq<nat> ::
              Mountain(Chunks(start, count), rise, flat, fall) && flat <= count / 2048
    ensures |Chunks(start, count)| <= count / 2048 + 22
  {
    var rise, flat, fall := ChunksRise(start, count, 0);
    RisingIsShort(rise, 0, MAX_ORDER);
    FallingIsShort(fall, 0, MAX_ORDER);
    MaxBlock();
    assert Mountain(Chunks(start, count), rise, flat, fall) && flat <= count / 2048;
  }

  lemma MaxBlock()
    ensures Pow2(MAX_ORDER) == 2048
  {
  }
}

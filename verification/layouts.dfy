/** Which bucket or block order serves a layout (kernel/src/mm/heap.rs:217-233). */
module Layouts {
  import opened Alignment
  import opened BuddyTags
  import opened Memory
  import opened Slabs

  const MIN_BUCKET_SHIFT: nat := 4
  const MAX_BUCKET_SHIFT: nat := 10
  /** log2 of the frame size. */
  const FRAME_SHIFT: nat := 12

  datatype Layout = Layout(size: nat, align: nat) {
    /** `Layout` guarantees a power of two. */
    ghost predicate Valid() {
      align > 0 && align == Pow2(Log2(align))
    }
  }

  /** `n` bytes aligned to `n` are enough for the layout. */
  predicate Suits(n: nat, layout: Layout) {
    layout.size <= n && layout.align <= n
  }

  lemma SuitsMore(layout: Layout, n: nat, m: nat)
    requires n <= m && Suits(n, layout)
    ensures Suits(m, layout)
  {
  }

  /** The smallest of the object sizes 16, 32 and so on up to 1024 that is enough. */
  predicate LeastObject(n: nat, layout: Layout) {
    Suits(n, layout) && (n > 16 ==> !Suits(n / 2, layout))
  }

  /** 2^o is the smallest power of two of frames that is enough. */
  predicate LeastOrder(o: nat, layout: Layout) {
    Suits(Pow2(o) * FRAME_SIZE, layout) && (o > 0 ==> !Suits(Pow2(o - 1) * FRAME_SIZE, layout))
  }

  function Max(a: nat, b: nat): nat {
    if a >= b then a else b
  }

  /** `n.next_power_of_two()`. */
  function NextPowerOfTwo(n: nat): (p: nat)
    ensures p > 0 && p >= n && p == Pow2(TrailingZeros(p))
    ensures forall k: nat :: n <= Pow2(k) ==> p <= Pow2(k)
  {
    var o := if n <= 1 then 0 else Log2(n - 1) + 1;
    PowerHasItsZeros(o);
    NextPowerIsLeast(n, o);
    Pow2(o)
  }

  lemma {:induction false} PowerHasItsZeros(o: nat)
    ensures TrailingZeros(Pow2(o)) == o
  {
    if o > 0 {
      var half := Pow2(o - 1);
      assert Pow2(o) == 2 * half;
      PowerHasItsZeros(o - 1);
      DoubleHasOneMore(half);
    }
  }

  lemma DoubleHasOneMore(n: nat)
    requires n > 0
    ensures TrailingZeros(2 * n) == 1 + TrailingZeros(n)
  {
    hide Down, Pow2;
  }

  lemma NextPowerIsLeast(n: nat, o: nat)
    requires o == if n <= 1 then 0 else Log2(n - 1) + 1
    ensures n <= Pow2(o) && forall k: nat :: n <= Pow2(k) ==> Pow2(o) <= Pow2(k)
  {
    hide Log2;
    if n > 1 { Pow2Next(o - 1); }
    forall k: nat | n <= Pow2(k) ensures Pow2(o) <= Pow2(k) {
      if o <= k { Pow2Monotone(o, k); } else { Pow2Monotone(k, o - 1); }
    }
  }

  lemma HalfIsTooSmall(n: nat, z: nat)
    requires z == TrailingZeros(NextPowerOfTwo(n))
    ensures n <= Pow2(z) == NextPowerOfTwo(n) && (z > 0 ==> Pow2(z - 1) < n)
  {
    hide TrailingZeros, NextPowerOfTwo, Pow2;
    if z > 0 { Pow2Next(z - 1); }
  }

  /** `bucket_for`. */
  function BucketFor(layout: Layout): (b: Option<nat>)
    ensures b.Some? ==> b.value < NUM_BUCKETS
  {
    var need := Max(Max(layout.size, layout.align), 16);
    if need > 1024 then None else
      var pow := NextPowerOfTwo(need);
      BucketRange(need, pow);
      Some(TrailingZeros(pow) - MIN_BUCKET_SHIFT)
  }

  lemma BucketRange(need: nat, pow: nat)
    requires 16 <= need <= 1024 && pow == NextPowerOfTwo(need)
    ensures MIN_BUCKET_SHIFT <= TrailingZeros(pow) <= MAX_BUCKET_SHIFT
  {
    hide NextPowerOfTwo, TrailingZeros;
    assert Pow2(10) == 1024 && Pow2(4) == 16;
    var z := TrailingZeros(pow);
    if z < 4 { Pow2Monotone(z + 1, 4); }
    if z > 10 { Pow2Monotone(11, z); }
  }

  /** `order_for_large`. */
  function OrderForLarge(layout: Layout): (o: Option<nat>)
    ensures o.Some? ==> o.value <= MAX_ORDER
  {
    var need := Max(layout.size, layout.align);
    var frames := NextPowerOfTwo((need + FRAME_SIZE - 1) / FRAME_SIZE);
    var order := TrailingZeros(frames);
    if order > MAX_ORDER then None else Some(order)
  }

  lemma ObjSizeIsPower(b: nat)
    requires b < NUM_BUCKETS
    ensures ObjSize(b) == Pow2(b + MIN_BUCKET_SHIFT)
  {
    assert Pow2(4) == 16 && Pow2(5) == 32 && Pow2(6) == 64 && Pow2(7) == 128;
    assert Pow2(8) == 256 && Pow2(9) == 512 && Pow2(10) == 1024;
  }

  /** Layouts up to 1024 bytes, and no others, have a bucket: the one with the smallest objects that
      are big and aligned enough. */
  lemma BucketFits(layout: Layout)
    ensures BucketFor(layout).Some? <==> Suits(1024, layout)
    ensures BucketFor(layout).Some? ==> LeastObject(ObjSize(BucketFor(layout).value), layout)
    ensures BucketFor(layout).Some? && layout.Valid() ==> Log2(layout.align) <= BucketFor(layout).value + MIN_BUCKET_SHIFT
  {
    hide Log2, TrailingZeros, NextPowerOfTwo, ObjSize, Pow2, LeastObject;
    var need := Max(Max(layout.size, layout.align), 16);
    if need <= 1024 {
      var z := TrailingZeros(NextPowerOfTwo(need));
      BucketRange(need, NextPowerOfTwo(need));
      ObjSizeIsPower(z - MIN_BUCKET_SHIFT);
      HalfIsTooSmall(need, z);
      PowerIsLeastObject(layout, need, z);
      if layout.Valid() { PowerOrder(Log2(layout.align), z); }
    }
  }

  /** No other bucket's objects are the smallest that suit. */
  lemma LeastObjectUnique(layout: Layout, b: nat, c: nat)
    requires b < NUM_BUCKETS && c < NUM_BUCKETS
    requires LeastObject(ObjSize(b), layout) && LeastObject(ObjSize(c), layout)
    ensures b == c
  {
  }

  lemma PowerIsLeastObject(layout: Layout, need: nat, z: nat)
    requires need == Max(Max(layout.size, layout.align), 16) && z >= MIN_BUCKET_SHIFT
    requires need <= Pow2(z) && Pow2(z - 1) < need
    ensures LeastObject(Pow2(z), layout)
  {
    hide Pow2;
    Pow2Next(z - 1);
    SixteenIsPower();
    if z > MIN_BUCKET_SHIFT { Pow2Monotone(MIN_BUCKET_SHIFT, z - 1); }
  }

  lemma SixteenIsPower()
    ensures Pow2(MIN_BUCKET_SHIFT) == 16
  {
  }

  lemma PowerOrder(a: nat, b: nat)
    requires Pow2(a) <= Pow2(b)
    ensures a <= b
  {
    if a > b { Pow2Monotone(b, a); }
  }

  /** Layouts up to 8 MiB, and no others, have an order: the smallest whose blocks are big and aligned
      enough. */
  lemma OrderFits(layout: Layout)
    ensures OrderForLarge(layout).Some? <==> Suits(0x80_0000, layout)
    ensures OrderForLarge(layout).Some? ==> LeastOrder(OrderForLarge(layout).value, layout)
    ensures OrderForLarge(layout).Some? && layout.Valid() ==> Log2(layout.align) <= OrderForLarge(layout).value + FRAME_SHIFT
  {
    hide Log2, TrailingZeros, NextPowerOfTwo, Pow2;
    var need := Max(layout.size, layout.align);
    var frames := (need + FRAME_SIZE - 1) / FRAME_SIZE;
    var o := TrailingZeros(NextPowerOfTwo(frames));
    HalfIsTooSmall(frames, o);
    FramesNeeded(need, Pow2(o));
    if o > 0 { FramesNeeded(need, Pow2(o - 1)); }
    TimesFrame(o);
    LargestBlock();
    if o > MAX_ORDER { Pow2Monotone(MAX_ORDER, o - 1); } else { Pow2Monotone(o, MAX_ORDER); }
    if o <= MAX_ORDER && layout.Valid() { PowerOrder(Log2(layout.align), o + FRAME_SHIFT); }
  }

  lemma FramesNeeded(need: nat, n: nat)
    ensures (need + FRAME_SIZE - 1) / FRAME_SIZE <= n <==> need <= n * FRAME_SIZE
  {
  }

  lemma LargestBlock()
    ensures Pow2(MAX_ORDER) * FRAME_SIZE == 0x80_0000
  {
    assert Pow2(4) == 16;
    assert Pow2(8) == 256;
    assert Pow2(11) == 2048;
  }

  lemma LeastOrderUnique(layout: Layout, o: nat, p: nat)
    requires LeastOrder(o, layout) && LeastOrder(p, layout)
    ensures o == p
  {
    hide Pow2;
    if o < p { Pow2Monotone(o, p - 1); }
    if p < o { Pow2Monotone(p, o - 1); }
  }

  lemma TimesFrame(o: nat)
    ensures Pow2(o) * FRAME_SIZE == Pow2(o + FRAME_SHIFT)
  {
    Pow2Add(o, FRAME_SHIFT);
    assert Pow2(12) == 4096;
  }
}

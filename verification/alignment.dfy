/** Powers of two, natural alignment and the bit tricks the allocators use on aligned numbers.

  Blocks of 2^o frames start at multiples of 2^o.  `Down(f, o)` is the start of the block of
  order `o` that holds frame `f`; it is written by halving, so that every fact about it follows
  by induction on the order from linear arithmetic.
 */
module Alignment {

  function Pow2(n: nat): (p: nat)
    ensures p >= 1
  {
    if n == 0 then 1 else 2 * Pow2(n - 1)
  }

  function Down(f: nat, o: nat): (start: nat)
    ensures start <= f < start + Pow2(o)
  {
    if o == 0 then f else 2 * Down(f / 2, o - 1)
  }

  predicate Aligned(f: nat, o: nat) {
    Down(f, o) == f
  }

  /** The frames of the block of order `o` that starts at `f`. */
  ghost function Run(f: nat, o: nat): set<nat> {
    Interval(f, f + Pow2(o))
  }

  /** The `count` frames from `first` on. */
  ghost function Range(first: nat, count: nat): set<nat> {
    Interval(first, first + count)
  }

  ghost function Interval(a: nat, b: nat): (s: set<nat>)
    ensures forall g: nat :: g in s <==> a <= g < b
    decreases b
  {
    if a < b then Interval(a, b - 1) + {b - 1} else {}
  }

  lemma Pow2Next(o: nat)
    ensures Pow2(o + 1) == 2 * Pow2(o)
  {
  }

  lemma {:induction false} Pow2Monotone(a: nat, b: nat)
    requires a <= b
    ensures Pow2(a) <= Pow2(b)
    ensures a < b ==> 2 * Pow2(a) <= Pow2(b)
    decreases b
  {
    if a < b { Pow2Monotone(a, b - 1); }
  }

  lemma {:induction false} Pow2Add(a: nat, b: nat)
    ensures Pow2(a + b) == Pow2(a) * Pow2(b)
    decreases a
  {
    if a > 0 {
      Pow2Add(a - 1, b);
      DoubleFactor(Pow2(b), Pow2(a - 1));
    }
  }

  /** `Down` is the usual remainder subtraction, so `Aligned` is `is_multiple_of(1 << o)`. */
  lemma {:induction false} DownIsRemainder(f: nat, o: nat)
    ensures Down(f, o) == f - f % Pow2(o)
    ensures Aligned(f, o) <==> f % Pow2(o) == 0
    decreases o
  {
    hide Pow2, Down, Quotient;
    var q := Quotient(f, o);
    QuotientTimesPow2(f, o);
    var r := f - Down(f, o);
    assert f == q * Pow2(o) + r;
    RemainderUnique(f, Pow2(o), q, r);
  }

  ghost function Quotient(f: nat, o: nat): nat {
    if o == 0 then f else Quotient(f / 2, o - 1)
  }

  lemma {:induction false} QuotientTimesPow2(f: nat, o: nat)
    ensures Quotient(f, o) * Pow2(o) == Down(f, o)
    decreases o
  {
    if o > 0 {
      QuotientTimesPow2(f / 2, o - 1);
      DoubleFactor(Quotient(f / 2, o - 1), Pow2(o - 1));
    }
  }

  lemma DoubleFactor(q: nat, p: nat)
    ensures q * (2 * p) == 2 * (q * p)
  {
  }

  lemma Distribute(a: nat, b: nat, m: nat)
    ensures (a + b) * m == a * m + b * m
  {
  }

  lemma RemainderUnique(f: nat, m: nat, q: nat, r: nat)
    requires 0 <= r < m && f == q * m + r
    ensures f % m == r && f / m == q
  {
    var d := q - f / m;
    assert f == (f / m) * m + f % m;
    assert d * m == f % m - r by {
      assert (q - f / m) * m == q * m - (f / m) * m;
    }
    if d >= 1 {
      ProductAtLeast(d, m);
    } else if d <= -1 {
      ProductAtLeast(-d, m);
    }
  }

  lemma ProductAtLeast(d: nat, m: nat)
    requires d >= 1
    ensures d * m >= m
  {
    assert d * m == (d - 1) * m + m;
  }

  /** Every frame of a block has the same start. */
  lemma {:induction false} DownUnique(f: nat, g: nat, o: nat)
    requires Down(f, o) <= g < Down(f, o) + Pow2(o)
    ensures Down(g, o) == Down(f, o)
    decreases o
  {
    if o > 0 { DownUnique(f / 2, g / 2, o - 1); }
  }

  lemma DownAligned(f: nat, o: nat)
    ensures Aligned(Down(f, o), o)
  {
    hide Pow2, Down;
    DownUnique(f, Down(f, o), o);
  }

  /** A block of order o + 1 is its lower half of order o followed by its upper half. */
  lemma {:induction false} DownSplit(f: nat, o: nat)
    ensures Down(f, o) == Down(f, o + 1) || Down(f, o) == Down(f, o + 1) + Pow2(o)
    decreases o
  {
    if o > 0 { DownSplit(f / 2, o - 1); }
  }

  /** Blocks nest: a smaller aligned block lies inside the larger one around it. */
  lemma {:induction false} DownNest(f: nat, a: nat, b: nat)
    requires a <= b
    ensures Down(f, b) <= Down(f, a)
    ensures Down(f, a) + Pow2(a) <= Down(f, b) + Pow2(b)
    ensures Down(Down(f, a), b) == Down(f, b)
    decreases b - a
  {
    hide Down;
    if a < b {
      DownSplit(f, a);
      DownNest(f, a + 1, b);
    }
    DownUnique(f, Down(f, a), b);
  }

  lemma {:induction false} AlignedHalves(f: nat, o: nat)
    requires Aligned(f, o + 1)
    ensures Aligned(f, o) && Aligned(f + Pow2(o), o)
    ensures Down(f + Pow2(o), o + 1) == f
  {
    hide Down;
    DownNest(f, o, o + 1);
    DownUnique(f, f + Pow2(o), o + 1);
    DownSplit(f + Pow2(o), o);
    DownNest(f + Pow2(o), o, o + 1);
  }

  lemma AlignedSmaller(f: nat, a: nat, b: nat)
    requires a <= b && Aligned(f, b)
    ensures Aligned(f, a)
  {
    hide Pow2, Down;
    DownNest(f, a, b);
  }

  lemma {:induction false} AlignedAdd(f: nat, g: nat, o: nat)
    requires Aligned(f, o) && Aligned(g, o)
    ensures Aligned(f + g, o)
    decreases o
  {
    if o > 0 {
      assert f % 2 == 0 && g % 2 == 0;
      assert (f + g) / 2 == f / 2 + g / 2;
      AlignedAdd(f / 2, g / 2, o - 1);
    }
  }

  lemma {:induction false} Pow2Aligned(o: nat)
    ensures Aligned(Pow2(o), o)
  {
    if o > 0 { Pow2Aligned(o - 1); }
  }

  lemma {:induction false} ZeroAligned(o: nat)
    ensures Aligned(0, o)
  {
    if o > 0 { ZeroAligned(o - 1); }
  }

  /** The other half of the block of order o + 1 around the aligned block at `f`. */
  function Buddy(f: nat, o: nat): (b: nat)
    requires Aligned(f, o)
    ensures Aligned(b, o) && b != f && Down(b, o + 1) == Down(f, o + 1)
    ensures Down(f, o + 1) == if f < b then f else b
    ensures b == f + Pow2(o) || f == b + Pow2(o)
  {
    hide Pow2, Down;
    DownSplit(f, o);
    DownAligned(f, o + 1);
    AlignedHalves(Down(f, o + 1), o);
    if Down(f, o + 1) == f then f + Pow2(o) else f - Pow2(o)
  }

  /** Bitwise exclusive or. */
  function Xor(a: nat, b: nat): nat {
    if a == 0 && b == 0 then 0
    else 2 * Xor(a / 2, b / 2) + (if a % 2 == b % 2 then 0 else 1)
  }

  /** Bitwise `a & !b`. */
  function AndNot(a: nat, b: nat): nat {
    if a == 0 then 0
    else 2 * AndNot(a / 2, b / 2) + (if a % 2 == 1 && b % 2 == 0 then 1 else 0)
  }

  lemma {:induction false} XorZero(a: nat)
    ensures Xor(a, 0) == a && AndNot(a, 0) == a
  {
    if a > 0 { XorZero(a / 2); }
  }

  /** On an aligned frame, `frame ^ (1 << o)` is the buddy and `frame & !(1 << o)` its parent. */
  lemma {:induction false} XorIsBuddy(f: nat, o: nat)
    requires Aligned(f, o)
    ensures Xor(f, Pow2(o)) == Buddy(f, o)
    ensures AndNot(f, Pow2(o)) == Down(f, o + 1)
    decreases o
  {
    if o == 0 {
      XorZero(f / 2);
    } else {
      var h := AlignedHalf(f, o);
      XorIsBuddy(h, o - 1);
      XorIsBuddyStep(h, o - 1);
    }
  }

  lemma AlignedHalf(f: nat, o: nat) returns (h: nat)
    requires o > 0 && Aligned(f, o)
    ensures f == 2 * h && Aligned(h, o - 1)
  {
    h := f / 2;
  }

  lemma XorIsBuddyStep(h: nat, o: nat)
    requires Aligned(h, o) && Aligned(2 * h, o + 1)
    requires Xor(h, Pow2(o)) == Buddy(h, o) && AndNot(h, Pow2(o)) == Down(h, o + 1)
    ensures Xor(2 * h, Pow2(o + 1)) == Buddy(2 * h, o + 1)
    ensures AndNot(2 * h, Pow2(o + 1)) == Down(2 * h, o + 2)
  {
    hide Xor, AndNot, Down, Pow2;
    Pow2Next(o);
    BuddyHalves(h, o);
    XorDouble(h, Pow2(o));
  }

  lemma XorDouble(a: nat, b: nat)
    ensures Xor(2 * a, 2 * b) == 2 * Xor(a, b)
    ensures AndNot(2 * a, 2 * b) == 2 * AndNot(a, b)
  {
  }

  lemma BuddyHalves(f: nat, o: nat)
    requires Aligned(f, o)
    ensures Aligned(2 * f, o + 1) && Buddy(2 * f, o + 1) == 2 * Buddy(f, o)
    ensures Down(2 * f, o + 2) == 2 * Down(f, o + 1)
  {
    assert 2 * f / 2 == f;
  }

  lemma {:induction false} IntervalSize(a: nat, b: nat)
    requires a <= b
    ensures |Interval(a, b)| == b - a
    decreases b
  {
    if a < b { IntervalSize(a, b - 1); }
  }

  lemma RunSize(f: nat, o: nat)
    ensures |Run(f, o)| == Pow2(o)
  {
    hide Pow2, Interval;
    IntervalSize(f, f + Pow2(o));
  }

  /** `n.trailing_zeros()` of a positive number. */
  function TrailingZeros(n: nat): (o: nat)
    requires n > 0
    ensures Aligned(n, o) && !Aligned(n, o + 1)
  {
    if n % 2 == 1 then 0 else 1 + TrailingZeros(n / 2)
  }

  /** `63 - n.leading_zeros()` of a positive 64-bit number. */
  function Log2(n: nat): (o: nat)
    requires n > 0
    ensures Pow2(o) <= n < 2 * Pow2(o)
  {
    if n == 1 then 0 else 1 + Log2(n / 2)
  }
}

/** Copying a tree of page tables, stated on memory. */
module CloneSpec {
  import opened Memory
  import opened Entries
  import opened Tables
  import opened Views

  /** `q` is `p`, or lies below one of the first `i` slots of `p`. */
  predicate InPart(q: Path, p: Path, i: nat) {
    q == p || (q.Sub? && if q.parent == p then q.index < i else InPart(q.parent, p, i))
  }

  lemma {:induction false} PartZero(q: Path, p: Path)
    ensures InPart(q, p, 0) <==> q == p
    decreases q
  {
    if q.Sub? { PartZero(q.parent, p); }
  }

  /** The first i + 1 slots are the first i and the one after. */
  lemma {:induction false} PartStep(q: Path, p: Path, i: nat)
    requires SmallIndices(q) && i < FRAME_WORDS
    ensures InPart(q, p, i + 1) <==> InPart(q, p, i) || InPart(q, Sub(p, i), FRAME_WORDS)
    ensures !(InPart(q, p, i) && InPart(q, Sub(p, i), FRAME_WORDS))
    decreases q
  {
    PartDepth(p, Sub(p, i), FRAME_WORDS);
    if q.Sub? && q != p { PartStep(q.parent, p, i); }
  }

  lemma {:induction false} PartDepth(q: Path, p: Path, i: nat)
    ensures InPart(q, p, i) ==> Depth(p) <= Depth(q)
    decreases q
  {
    if q.Sub? && q != p { PartDepth(q.parent, p, i); }
  }

  lemma {:induction false} AllBelowRoot(q: Path)
    requires SmallIndices(q)
    ensures InPart(q, Root, FRAME_WORDS)
    decreases q
  {
    if q.Sub? { AllBelowRoot(q.parent); }
  }

  // ---------------------------------------------------------------- a tree below a path

  /** `dst` holds exactly the tables reachable from the one at `p`, each in a frame of its own. */
  ghost predicate TreeAt(m: seq<Frame>, dst: TableMap, p: Path) {
    && p in dst && Injective(dst)
    && (forall q :: q in dst ==> Depth(q) <= TOP_LEVEL && dst[q] < |m| && SmallIndices(q) && InPart(q, p, FRAME_WORDS))
    && (forall q :: q in dst && q != p ==> Hangs(m, dst, q))
    && (forall q, i: nat :: q in dst && i < FRAME_WORDS && Inner(Level(q), m[dst[q]][i]) ==> Sub(q, i) in dst)
  }

  ghost predicate Hangs(m: seq<Frame>, dst: TableMap, q: Path) {
    && q.Sub? && q.parent in dst && q.index < FRAME_WORDS && Depth(q.parent) <= TOP_LEVEL && dst[q.parent] < |m|
    && var w := m[dst[q.parent]][q.index];
       Inner(Level(q.parent), w) && q in dst && Target(w) == dst[q]
  }

  /** The part of a tree below `p`. */
  ghost function Restrict(dst: TableMap, p: Path): TableMap {
    map q | q in dst && InPart(q, p, FRAME_WORDS) :: dst[q]
  }

  lemma TreeAtChild(m: seq<Frame>, m': seq<Frame>, dst: TableMap, p: Path, i: nat)
    requires TreeAt(m, dst, p) && Sub(p, i) in dst && Agree(m, m', Restrict(dst, Sub(p, i)))
    ensures TreeAt(m', Restrict(dst, Sub(p, i)), Sub(p, i))
  {
    hide Present, PageFlag, Target, Depth, Inner, Injective, SmallIndices;
    var c := Sub(p, i);
    assert Injective(Restrict(dst, c)) by { RestrictInjective(dst, c); }
    var sub := Restrict(dst, c);
    PartDepthStrict(p, c);
    forall q | q in sub && q != c ensures Hangs(m', sub, q) {
      assert Hangs(m, dst, q);
    }
    forall q, k: nat | q in sub && k < FRAME_WORDS && Inner(Level(q), m'[sub[q]][k]) ensures Sub(q, k) in sub {
      assert m'[sub[q]] == m[dst[q]];
    }
  }

  lemma RestrictInjective(dst: TableMap, p: Path)
    requires Injective(dst)
    ensures Injective(Restrict(dst, p))
  {
    hide InPart;
  }

  lemma PartDepthStrict(p: Path, c: Path)
    requires c.Sub? && c.parent == p
    ensures forall i: nat :: !InPart(p, c, i)
  {
    forall i: nat ensures !InPart(p, c, i) { PartDepth(p, c, i); }
  }

  /** Frames of the tables below the first `i` slots of `p`. */
  ghost function FramesBelow(dst: TableMap, p: Path, i: nat): set<nat> {
    set q | q in dst && q != p && InPart(q, p, i) :: dst[q]
  }

  lemma FramesBelowStep(m: seq<Frame>, dst: TableMap, p: Path, i: nat)
    requires TreeAt(m, dst, p) && i < FRAME_WORDS
    ensures FramesBelow(dst, p, i + 1) == FramesBelow(dst, p, i) + Restrict(dst, Sub(p, i)).Values
    ensures FramesBelow(dst, p, i) !! Restrict(dst, Sub(p, i)).Values
    ensures dst[p] !in Restrict(dst, Sub(p, i)).Values && Restrict(dst, Sub(p, i)).Values <= dst.Values
  {
    hide Present, PageFlag, Target, Depth, Hangs;
    PartDepthStrict(p, Sub(p, i));
    forall q | q in dst
      ensures InPart(q, p, i + 1) <==> InPart(q, p, i) || InPart(q, Sub(p, i), FRAME_WORDS)
      ensures !(InPart(q, p, i) && InPart(q, Sub(p, i), FRAME_WORDS))
    {
      PartStep(q, p, i);
    }
    var sub := Restrict(dst, Sub(p, i));
    forall x | x in sub.Values ensures x in FramesBelow(dst, p, i + 1) && x !in FramesBelow(dst, p, i) && x != dst[p] && x in dst.Values {
      var q :| q in sub && sub[q] == x;
      assert q in dst && q != p && InPart(q, p, i + 1) && dst[q] == x;
    }
    forall x | x in FramesBelow(dst, p, i + 1) ensures x in FramesBelow(dst, p, i) || x in sub.Values {
      var q :| q in dst && q != p && InPart(q, p, i + 1) && dst[q] == x;
      assert InPart(q, Sub(p, i), FRAME_WORDS) ==> sub[q] == x;
    }
  }

  lemma FramesBelowAll(m: seq<Frame>, dst: TableMap, p: Path)
    requires TreeAt(m, dst, p)
    ensures FramesBelow(dst, p, 0) == {}
    ensures FramesBelow(dst, p, FRAME_WORDS) + {dst[p]} == dst.Values
    ensures dst[p] !in FramesBelow(dst, p, FRAME_WORDS)
  {
    hide Present, PageFlag, Target, Depth, Hangs;
    forall q | q in dst ensures InPart(q, p, 0) <==> q == p { PartZero(q, p); }
    forall x | x in dst.Values ensures x in FramesBelow(dst, p, FRAME_WORDS) + {dst[p]} {
      var q :| q in dst && dst[q] == x;
      assert q == p || (q != p && InPart(q, p, FRAME_WORDS));
    }
  }

  // ---------------------------------------------------------------- copies

  /** What `clone_table` makes of one entry. */
  ghost predicate CopyOf(level: nat, w: Word, w': Word, dst: TableMap, child: Path) {
    if !Present(w) then w' == 0
    else if Inner(level, w) then
      && child in dst && Inner(level, w') && Target(w') == dst[child] && FlagBits(w') == FlagBits(w)
    else w' == w
  }

  /** The tables below the first `i` slots of `p` are copied, and the other slots of the copy of `p`
      are still zero. */
  ghost predicate Cloned(m: seq<Frame>, src: TableMap, m': seq<Frame>, dst: TableMap, p: Path, i: nat)
    requires InRam(m, src)
  {
    && (forall q :: q in dst <==> q in src && InPart(q, p, i))
    && (forall q :: q in dst ==> dst[q] < |m'|) && Injective(dst)
    && (forall q, k: nat :: q in dst && k < FRAME_WORDS && (q != p || k < i) ==>
          CopyOf(Level(q), m[src[q]][k], m'[dst[q]][k], dst, Sub(q, k)))
    && (forall k: nat :: i <= k < FRAME_WORDS && p in dst ==> m'[dst[p]][k] == 0)
  }

  lemma {:induction false} PartMonotone(q: Path, p: Path, i: nat, j: nat)
    requires i <= j && InPart(q, p, i)
    ensures InPart(q, p, j)
    decreases q
  {
    if q != p && q.parent != p { PartMonotone(q.parent, p, i, j); }
  }

  /** A finished or half-finished copy is a tree. */
  lemma ClonedIsTree(m: seq<Frame>, src: TableMap, m': seq<Frame>, dst: TableMap, p: Path, i: nat)
    requires Shaped(m, src) && p in src && i <= FRAME_WORDS && Cloned(m, src, m', dst, p, i)
    ensures TreeAt(m', dst, p)
  {
    hide Present, PageFlag, Target, Depth;
    forall q | q in dst ensures SmallIndices(q) && InPart(q, p, FRAME_WORDS) {
      TablePathsAreSmall(m, src, q);
      PartMonotone(q, p, i, FRAME_WORDS);
    }
    forall q | q in dst && q != p ensures Hangs(m', dst, q) {
      assert Attached(m, src, q);
      assert CopyOf(Level(q.parent), m[src[q.parent]][q.index], m'[dst[q.parent]][q.index], dst, Sub(q.parent, q.index));
    }
    HoleNotInner();
    forall q, k: nat | q in dst && k < FRAME_WORDS && Inner(Level(q), m'[dst[q]][k]) ensures Sub(q, k) in dst {
      assert q != p || k < i;
      assert CopyOf(Level(q), m[src[q]][k], m'[dst[q]][k], dst, Sub(q, k));
    }
  }

  lemma HoleNotInner()
    ensures !Present(0)
  {
  }

  lemma {:induction false} AncestorInSource(m: seq<Frame>, src: TableMap, q: Path, c: Path)
    requires Shaped(m, src) && q in src && InPart(q, c, FRAME_WORDS)
    ensures c in src
    decreases q
  {
    hide Present, PageFlag, Target, Depth;
    if q != c {
      assert Attached(m, src, q);
      if q.parent != c { AncestorInSource(m, src, q.parent, c); }
    }
  }

  /** Nothing lies below a slot that holds no table. */
  lemma NothingBelowSlot(m: seq<Frame>, src: TableMap, m': seq<Frame>, p: Path, i: nat)
    requires Shaped(m, src) && p in src && i < FRAME_WORDS && !Inner(Level(p), Slot(m, src, p, i))
    ensures Cloned(m, src, m', map[], Sub(p, i), FRAME_WORDS)
  {
    hide Present, PageFlag, Target, Depth;
    NoTableInHole(m, src, p, i);
    forall q | q in src ensures !InPart(q, Sub(p, i), FRAME_WORDS) {
      if InPart(q, Sub(p, i), FRAME_WORDS) { AncestorInSource(m, src, q, Sub(p, i)); }
    }
  }

  /** Only the source tables' contents matter for being a copy of them. */
  lemma ClonedFromSame(m: seq<Frame>, m1: seq<Frame>, src: TableMap, m': seq<Frame>, dst: TableMap, p: Path, i: nat)
    requires InRam(m, src) && InRam(m1, src) && Agree(m, m1, src) && Cloned(m1, src, m', dst, p, i)
    ensures Cloned(m, src, m', dst, p, i)
  {
    hide Present, PageFlag, Target, Depth, CopyOf, InPart;
    forall q, k: nat | q in dst && k < FRAME_WORDS && (q != p || k < i)
      ensures CopyOf(Level(q), m[src[q]][k], m'[dst[q]][k], dst, Sub(q, k))
    {
      assert m1[src[q]] == m[src[q]];
    }
  }

  /** One turn of the loop of `clone_table`: slot `i` of the copy gets its word. */
  lemma CloneStep(m: seq<Frame>, src: TableMap, m1: seq<Frame>, dst: TableMap, p: Path, i: nat,
                  m2: seq<Frame>, below: TableMap, w: Word)
    requires Shaped(m, src) && p in src && i < FRAME_WORDS && Cloned(m, src, m1, dst, p, i)
    requires Agree(m1, m2, dst) && Cloned(m, src, m2, below, Sub(p, i), FRAME_WORDS)
    requires dst.Values !! below.Values && dst[p] < |m2|
    requires CopyOf(Level(p), Slot(m, src, p, i), w, dst + below, Sub(p, i))
    ensures Cloned(m, src, Written(m2, dst[p], i, w), dst + below, p, i + 1)
  {
    hide Present, PageFlag, Target, Depth, CopyOf, Attached;
    var m3, all := Written(m2, dst[p], i, w), dst + below;
    CloneStepKeys(m, src, dst, p, i, below);
    CloneStepInjective(dst, below);
    forall q, k: nat | q in all && k < FRAME_WORDS && (q != p || k < i + 1)
      ensures CopyOf(Level(q), m[src[q]][k], m3[all[q]][k], all, Sub(q, k))
    {
      CloneStepSlot(m, src, m1, dst, p, i, m2, below, w, q, k);
    }
    assert all[p] == dst[p];
  }

  lemma CloneStepKeys(m: seq<Frame>, src: TableMap, dst: TableMap, p: Path, i: nat, below: TableMap)
    requires Shaped(m, src) && i < FRAME_WORDS
    requires forall q :: q in dst <==> q in src && InPart(q, p, i)
    requires forall q :: q in below <==> q in src && InPart(q, Sub(p, i), FRAME_WORDS)
    ensures forall q :: q in dst + below <==> q in src && InPart(q, p, i + 1)
    ensures dst.Keys !! below.Keys
  {
    hide Shaped, InPart;
    forall q | q in src
      ensures InPart(q, p, i + 1) <==> InPart(q, p, i) || InPart(q, Sub(p, i), FRAME_WORDS)
      ensures !(InPart(q, p, i) && InPart(q, Sub(p, i), FRAME_WORDS))
    {
      TablePathsAreSmall(m, src, q);
      PartStep(q, p, i);
    }
  }

  lemma CloneStepInjective(dst: TableMap, below: TableMap)
    requires Injective(dst) && Injective(below) && dst.Values !! below.Values && dst.Keys !! below.Keys
    ensures Injective(dst + below)
  {
    var all := dst + below;
    forall q, r | q in all && r in all && all[q] == all[r] ensures q == r {
      assert q in dst ==> dst[q] in dst.Values;
      assert r in dst ==> dst[r] in dst.Values;
      assert q in below ==> below[q] in below.Values;
      assert r in below ==> below[r] in below.Values;
    }
  }

  lemma CloneStepSlot(m: seq<Frame>, src: TableMap, m1: seq<Frame>, dst: TableMap, p: Path, i: nat,
                      m2: seq<Frame>, below: TableMap, w: Word, q: Path, k: nat)
    requires InRam(m, src) && p in src && p in dst && i < FRAME_WORDS && Cloned(m, src, m1, dst, p, i)
    requires Agree(m1, m2, dst) && Cloned(m, src, m2, below, Sub(p, i), FRAME_WORDS)
    requires dst.Values !! below.Values && dst.Keys !! below.Keys && dst[p] < |m2|
    requires CopyOf(Level(p), Slot(m, src, p, i), w, dst + below, Sub(p, i))
    requires q in dst + below && k < FRAME_WORDS && (q != p || k < i + 1)
    ensures (dst + below)[q] < |m2|
    ensures CopyOf(Level(q), m[src[q]][k], Written(m2, dst[p], i, w)[(dst + below)[q]][k], dst + below, Sub(q, k))
  {
    hide Present, PageFlag, Target, Depth, InPart;
    var m3, all := Written(m2, dst[p], i, w), dst + below;
    assert dst[p] in dst.Values;
    if q in below {
      assert below[q] in below.Values;
      assert CopyOf(Level(q), m[src[q]][k], m2[below[q]][k], below, Sub(q, k));
    } else if q != p || k != i {
      assert m2[dst[q]] == m1[dst[q]];
      assert CopyOf(Level(q), m[src[q]][k], m1[dst[q]][k], dst, Sub(q, k));
      assert Sub(q, k) in dst ==> Sub(q, k) !in below;
    }
  }

  // ---------------------------------------------------------------- a finished copy

  /** `clone_table` preserves meaning: the copy is a well-shaped tree with the same translations. */
  lemma CloneTranslates(m: seq<Frame>, src: TableMap, m': seq<Frame>, dst: TableMap)
    requires Shaped(m, src) && Cloned(m, src, m', dst, Root, FRAME_WORDS)
    ensures Shaped(m', dst) && Injective(dst) && dst.Keys == src.Keys
    ensures forall v: Word :: View(m', dst, v) == View(m, src, v)
    ensures Tidy(m', dst) <==> Tidy(m, src)
  {
    hide Present, PageFlag, Target, Depth, Index, Walk, CopyOf, Tidy;
    assert dst.Keys == src.Keys by {
      forall q | q in src ensures q in dst {
        TablePathsAreSmall(m, src, q);
        AllBelowRoot(q);
      }
    }
    ClonedIsTree(m, src, m', dst, Root, FRAME_WORDS);
    TreeIsShaped(m', dst);
    forall v: Word ensures View(m', dst, v) == View(m, src, v) {
      CloneWalks(m, src, m', dst, v, TOP_LEVEL);
    }
    CloneTidy(m, src, m', dst);
  }

  lemma TreeIsShaped(m: seq<Frame>, dst: TableMap)
    requires TreeAt(m, dst, Root)
    ensures Shaped(m, dst)
  {
    hide Present, PageFlag, Target, Depth, InPart, SmallIndices;
    forall q | q in dst && q.Sub? ensures Attached(m, dst, q) {
      assert Hangs(m, dst, q);
    }
  }

  lemma {:induction false} CloneWalks(m: seq<Frame>, src: TableMap, m': seq<Frame>, dst: TableMap, v: Word, level: nat)
    requires Shaped(m, src) && Shaped(m', dst) && dst.Keys == src.Keys
    requires Cloned(m, src, m', dst, Root, FRAME_WORDS)
    requires level <= TOP_LEVEL && PathOf(v, level) in src
    ensures Walk(m', dst[PathOf(v, level)], level, v) == Walk(m, src[PathOf(v, level)], level, v)
    decreases level
  {
    hide Present, PageFlag, Target, Depth, Index, Attached, InPart;
    var q, k := PathOf(v, level), Index(v, level);
    assert CopyOf(Level(q), m[src[q]][k], m'[dst[q]][k], dst, Sub(q, k));
    HoleNotInner();
    WalkStep(m, src, v, level);
    WalkStep(m', dst, v, level);
    if Inner(level, m[src[q]][k]) { CloneWalks(m, src, m', dst, v, level - 1); }
  }

  lemma CloneTidy(m: seq<Frame>, src: TableMap, m': seq<Frame>, dst: TableMap)
    requires InRam(m, src) && InRam(m', dst) && dst.Keys == src.Keys
    requires Cloned(m, src, m', dst, Root, FRAME_WORDS)
    ensures Tidy(m', dst) <==> Tidy(m, src)
  {
    hide Present, PageFlag, Target, Depth, InPart;
    HoleNotInner();
    forall q | q in src ensures EmptyTable(m'[dst[q]]) <==> EmptyTable(m[src[q]]) {
      forall k: nat | k < FRAME_WORDS ensures Present(m'[dst[q]][k]) <==> Present(m[src[q]][k]) {
        assert CopyOf(Level(q), m[src[q]][k], m'[dst[q]][k], dst, Sub(q, k));
      }
    }
  }

  // ---------------------------------------------------------------- how many tables

  /** The source's tables at `p` and below its first `i` slots. */
  ghost function Part(src: TableMap, p: Path, i: nat): set<Path> {
    set q | q in src && InPart(q, p, i)
  }

  lemma PartNotEmpty(src: TableMap, p: Path, i: nat)
    requires p in src
    ensures |Part(src, p, i)| > 0
  {
    assert p in Part(src, p, i);
  }

  lemma {:induction false} InjectiveCount(dst: TableMap)
    requires Injective(dst)
    ensures |dst.Values| == |dst.Keys|
    decreases |dst|
  {
    if dst == map[] {
      assert dst.Values == {};
    } else {
      var q :| q in dst;
      var rest := dst - {q};
      OneLess(dst, q);
      InjectiveCount(rest);
    }
  }

  lemma OneLess(dst: TableMap, q: Path)
    requires Injective(dst) && q in dst
    ensures var rest := dst - {q};
            && dst.Keys == rest.Keys + {q} && dst.Values == rest.Values + {dst[q]} && dst[q] !in rest.Values
  {
    var rest := dst - {q};
    assert dst[q] in dst.Values;
    forall x | x in dst.Values && x != dst[q] ensures x in rest.Values {
      var r :| r in dst && dst[r] == x;
      assert rest[r] == x;
    }
  }

  /** The tables below one more slot come on top of those below the slots before it. */
  lemma PartGrows(m: seq<Frame>, src: TableMap, p: Path, i: nat)
    requires Shaped(m, src) && i < FRAME_WORDS
    ensures |Part(src, p, i)| + |Part(src, Sub(p, i), FRAME_WORDS)| <= |Part(src, p, FRAME_WORDS)|
  {
    hide Shaped, InPart;
    var a, b, all := Part(src, p, i), Part(src, Sub(p, i), FRAME_WORDS), Part(src, p, FRAME_WORDS);
    forall q | q in src
      ensures InPart(q, p, i) ==> InPart(q, p, FRAME_WORDS)
      ensures InPart(q, Sub(p, i), FRAME_WORDS) ==> InPart(q, p, FRAME_WORDS) && !InPart(q, p, i)
    {
      TablePathsAreSmall(m, src, q);
      PartStep(q, p, i);
      if InPart(q, p, i + 1) { PartMonotone(q, p, i + 1, FRAME_WORDS); }
      if InPart(q, p, i) { PartMonotone(q, p, i, FRAME_WORDS); }
    }
    assert a !! b && a + b <= all;
    SubsetSize(a + b, all);
  }

  lemma {:induction false} SubsetSize<T>(a: set<T>, b: set<T>)
    requires a <= b
    ensures |a| <= |b|
  {
    assert |b| == |a| + |b - a| by { assert b == a + (b - a); }
  }

  // ---------------------------------------------------------------- any tables in memory have a map

  /** Every table reachable from `t` within the levels of the walk lies in memory. */
  ghost predicate Reachable(m: seq<Frame>, t: nat, level: nat)
    decreases level
  {
    && t < |m|
    && forall i: nat :: i < FRAME_WORDS && Inner(level, m[t][i]) ==> Reachable(m, Target(m[t][i]), level - 1)
  }

  /** As `TreeAt`, for the first `i` slots of `p`, and with sharing of frames allowed. */
  ghost predicate Rooted(m: seq<Frame>, src: TableMap, p: Path, i: nat) {
    && p in src
    && (forall q :: q in src ==> Depth(q) <= TOP_LEVEL && src[q] < |m| && SmallIndices(q) && InPart(q, p, i))
    && (forall q :: q in src && q != p ==> Hangs(m, src, q))
    && (forall q, k: nat :: q in src && k < FRAME_WORDS && (q != p || k < i) && Inner(Level(q), m[src[q]][k]) ==>
          Sub(q, k) in src)
  }

  /** Whatever hangs below a root in memory, shared or not, is described by a table map: the source of
      `clone_table` needs no more than that its tables lie in memory. */
  lemma SourceExists(m: seq<Frame>, root: nat) returns (src: TableMap)
    requires Reachable(m, root, TOP_LEVEL)
    ensures Shaped(m, src) && src[Root] == root
  {
    hide Present, PageFlag, Target, Depth, InPart, SmallIndices;
    RootFacts();
    src := Unfold(m, root, TOP_LEVEL, Root, FRAME_WORDS);
    forall q | q in src && q.Sub? ensures Attached(m, src, q) { assert Hangs(m, src, q); }
  }

  lemma RootFacts()
    ensures Depth(Root) == 0 && SmallIndices(Root)
  {
  }

  lemma {:induction false} Unfold(m: seq<Frame>, t: nat, level: nat, p: Path, i: nat) returns (src: TableMap)
    requires Depth(p) <= TOP_LEVEL && level == Level(p) && SmallIndices(p) && i <= FRAME_WORDS && Reachable(m, t, level)
    ensures Rooted(m, src, p, i) && src[p] == t
    decreases level, i
  {
    hide Present, PageFlag, Target;
    if i == 0 {
      src := map[p := t];
      PartZero(p, p);
    } else {
      var k := i - 1;
      var before := Unfold(m, t, level, p, k);
      if Inner(level, m[t][k]) {
        var below := Unfold(m, Target(m[t][k]), level - 1, Sub(p, k), FRAME_WORDS);
        RootedJoin(m, before, below, p, k);
        src := before + below;
      } else {
        RootedSkip(m, before, p, k);
        src := before;
      }
    }
  }

  lemma RootedSkip(m: seq<Frame>, src: TableMap, p: Path, i: nat)
    requires Rooted(m, src, p, i) && i < FRAME_WORDS && !Inner(Level(p), m[src[p]][i])
    ensures Rooted(m, src, p, i + 1)
  {
    hide Present, PageFlag, Target, Depth, Hangs, InPart;
    forall q | q in src ensures InPart(q, p, i + 1) { PartMonotone(q, p, i, i + 1); }
  }

  lemma RootedJoin(m: seq<Frame>, src: TableMap, below: TableMap, p: Path, i: nat)
    requires Rooted(m, src, p, i) && i < FRAME_WORDS && Inner(Level(p), m[src[p]][i])
    requires Rooted(m, below, Sub(p, i), FRAME_WORDS) && below[Sub(p, i)] == Target(m[src[p]][i])
    ensures Rooted(m, src + below, p, i + 1) && (src + below)[p] == src[p]
  {
    hide Present, PageFlag, Target, Depth, InPart, Hangs;
    var all := src + below;
    forall q | q in all ensures InPart(q, p, i + 1) && !(q in src && q in below) {
      PartStep(q, p, i);
    }
    JoinHangs(m, src, below, p, i);
  }

  lemma JoinHangs(m: seq<Frame>, src: TableMap, below: TableMap, p: Path, i: nat)
    requires Rooted(m, src, p, i) && i < FRAME_WORDS && Inner(Level(p), m[src[p]][i])
    requires Rooted(m, below, Sub(p, i), FRAME_WORDS) && below[Sub(p, i)] == Target(m[src[p]][i])
    requires src.Keys !! below.Keys
    ensures forall q :: q in src + below && q != p ==> Hangs(m, src + below, q)
  {
    hide Present, PageFlag, Target, Depth, InPart, SmallIndices;
    var all := src + below;
    forall q | q in all && q != p ensures Hangs(m, all, q) {
      if q in src { assert Hangs(m, src, q); } else if q != Sub(p, i) { assert Hangs(m, below, q); }
    }
  }
}

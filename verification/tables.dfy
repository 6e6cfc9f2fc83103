/** Page tables in physical memory.

  A table is identified by its path of indices from the root.  `tables` maps the path of every
  table reachable from the root to the frame that holds it; `Shaped` says the map is exactly what
  following inner entries from the root finds, so it needs no recursion.  `Walk` is the hardware
  walk.  One slot of one table is written at a time; the lemmas below say what such a write does to
  the walk of every address.
 */
module Tables {
  import opened Memory
  import opened Entries

  datatype Path = Root | Sub(parent: Path, index: nat)

  function Depth(p: Path): nat {
    match p case Root => 0 case Sub(q, _) => Depth(q) + 1
  }

  /** 3 for the PML4 down to 0 for a page table. */
  function Level(p: Path): nat
    requires Depth(p) <= TOP_LEVEL
  {
    TOP_LEVEL - Depth(p)
  }

  type TableMap = map<Path, nat>

  ghost predicate InRam(m: seq<Frame>, tables: TableMap) {
    && Root in tables
    && forall p :: p in tables ==> Depth(p) <= TOP_LEVEL && tables[p] < |m|
  }

  /** The word in slot `i` of the table at path `p`. */
  ghost function Slot(m: seq<Frame>, tables: TableMap, p: Path, i: nat): Word
    requires InRam(m, tables) && p in tables && i < FRAME_WORDS
  {
    m[tables[p]][i]
  }

  /** The parent's slot is an inner entry that names the table at `p`. */
  ghost predicate Attached(m: seq<Frame>, tables: TableMap, p: Path)
    requires InRam(m, tables) && p in tables && p.Sub?
  {
    && p.parent in tables && p.index < FRAME_WORDS
    && var w := Slot(m, tables, p.parent, p.index);
       Inner(Level(p.parent), w) && Target(w) == tables[p]
  }

  ghost predicate Shaped(m: seq<Frame>, tables: TableMap) {
    && InRam(m, tables)
    && (forall p :: p in tables && p.Sub? ==> Attached(m, tables, p))
    && (forall p, i: nat :: p in tables && i < FRAME_WORDS && Inner(Level(p), Slot(m, tables, p, i)) ==>
          Sub(p, i) in tables)
  }

  /** No table is reached by two paths. */
  ghost predicate Injective(tables: TableMap) {
    forall p, q :: p in tables && q in tables && tables[p] == tables[q] ==> p == q
  }

  // ---------------------------------------------------------------- the walk

  /** The leaf entry that maps an address, and the level of the table it stands in. */
  datatype Hit = Hit(entry: Word, level: nat)

  ghost function Walk(m: seq<Frame>, t: nat, level: nat, v: Word): Option<Hit>
    decreases level
  {
    if t < |m| then Follow(m, m[t][Index(v, level)], level, v) else None
  }

  /** What a slot of a table of the given level makes of `v`. */
  ghost function Follow(m: seq<Frame>, w: Word, level: nat, v: Word): Option<Hit>
    decreases level, 0
  {
    if !Present(w) then None
    else if Inner(level, w) then Walk(m, Target(w), level - 1, v)
    else Some(Hit(w, level))
  }

  /** The path of the table of the given level on the walk of `v`. */
  ghost function PathOf(v: Word, level: nat): (p: Path)
    requires level <= TOP_LEVEL
    ensures Depth(p) == TOP_LEVEL - level
    decreases TOP_LEVEL - level
  {
    if level == TOP_LEVEL then Root else Sub(PathOf(v, level + 1), Index(v, level + 1))
  }

  /** The walk of `v` goes through slot `i` of the table at `p`, if it gets that far. */
  ghost predicate Through(v: Word, p: Path, i: nat)
    requires Depth(p) <= TOP_LEVEL
  {
    PathOf(v, Level(p)) == p && Index(v, Level(p)) == i
  }

  ghost function View(m: seq<Frame>, tables: TableMap, v: Word): Option<Hit>
    requires InRam(m, tables)
  {
    Walk(m, tables[Root], TOP_LEVEL, v)
  }

  // ---------------------------------------------------------------- writing one slot

  ghost function Written(m: seq<Frame>, t: nat, i: nat, w: Word): (m': seq<Frame>)
    requires t < |m| && i < FRAME_WORDS
    ensures |m'| == |m|
  {
    m[t := m[t][i := w]]
  }

  /** One step of the walk, in terms of paths. */
  lemma WalkStep(m: seq<Frame>, tables: TableMap, v: Word, level: nat)
    requires Shaped(m, tables) && level <= TOP_LEVEL && PathOf(v, level) in tables
    ensures var q := PathOf(v, level);
            var w := Slot(m, tables, q, Index(v, level));
            && Walk(m, tables[q], level, v) == Follow(m, w, level, v)
            && (Inner(level, w) ==>
                  && PathOf(v, level - 1) == Sub(q, Index(v, level)) && PathOf(v, level - 1) in tables
                  && Target(w) == tables[PathOf(v, level - 1)]
                  && Follow(m, w, level, v) == Walk(m, tables[PathOf(v, level - 1)], level - 1, v))
  {
    hide Present, PageFlag, Target, Index;
    var q, j := PathOf(v, level), Index(v, level);
    if Inner(level, Slot(m, tables, q, j)) {
      assert Sub(q, j) in tables && Attached(m, tables, Sub(q, j));
    }
  }

  lemma {:induction false} AncestorsExist(m: seq<Frame>, tables: TableMap, v: Word, a: nat, b: nat)
    requires Shaped(m, tables) && a <= b <= TOP_LEVEL && PathOf(v, a) in tables
    ensures PathOf(v, b) in tables
    ensures b < TOP_LEVEL ==> PathOf(v, b + 1) in tables && Inner(b + 1, Slot(m, tables, PathOf(v, b + 1), Index(v, b + 1)))
    decreases b - a
  {
    hide Present, PageFlag, Target, Index, Depth;
    if a < TOP_LEVEL { assert Attached(m, tables, PathOf(v, a)); }
    if a < b { AncestorsExist(m, tables, v, a + 1, b); }
  }

  /** Writing slot `i` at `p` changes the walk of the addresses through it, and no other. */
  lemma {:induction false} WalkAfterWrite(m: seq<Frame>, tables: TableMap, p: Path, i: nat, w: Word, v: Word, level: nat)
    requires Shaped(m, tables) && Injective(tables) && p in tables && i < FRAME_WORDS
    requires level <= TOP_LEVEL && PathOf(v, level) in tables
    ensures var m' := Written(m, tables[p], i, w);
            Walk(m', tables[PathOf(v, level)], level, v) ==
              if Through(v, p, i) && Level(p) <= level then Follow(m', w, Level(p), v)
              else Walk(m, tables[PathOf(v, level)], level, v)
    decreases level
  {
    hide Present, PageFlag, Target, Index, Depth, Attached;
    var m' := Written(m, tables[p], i, w);
    var q, j := PathOf(v, level), Index(v, level);
    if !(q == p && j == i) {
      WalkStep(m, tables, v, level);
      assert m'[tables[q]][j] == m[tables[q]][j];
      if Inner(level, m[tables[q]][j]) {
        WalkAfterWrite(m, tables, p, i, w, v, level - 1);
      } else if Through(v, p, i) && Level(p) < level {
        AncestorsExist(m, tables, v, Level(p), level - 1);
      }
    }
  }

  lemma ViewAfterWrite(m: seq<Frame>, tables: TableMap, p: Path, i: nat, w: Word)
    requires Shaped(m, tables) && Injective(tables) && p in tables && i < FRAME_WORDS
    ensures var m' := Written(m, tables[p], i, w);
            forall v: Word :: View(m', tables, v) ==
              if Through(v, p, i) then Follow(m', w, Level(p), v) else View(m, tables, v)
  {
    hide Walk, Follow, Through, Attached, Present, PageFlag, Target, Index, Depth;
    forall v: Word
      ensures View(Written(m, tables[p], i, w), tables, v) ==
                if Through(v, p, i) then Follow(Written(m, tables[p], i, w), w, Level(p), v) else View(m, tables, v)
    {
      WalkAfterWrite(m, tables, p, i, w, v, TOP_LEVEL);
    }
  }

  /** A table that exists is on the walk of every address with its path. */
  lemma {:induction false} WalkReaches(m: seq<Frame>, tables: TableMap, v: Word, level: nat)
    requires Shaped(m, tables) && level <= TOP_LEVEL && PathOf(v, level) in tables
    ensures View(m, tables, v) == Walk(m, tables[PathOf(v, level)], level, v)
    decreases TOP_LEVEL - level
  {
    hide Present, PageFlag, Target, Index, Depth;
    if level < TOP_LEVEL {
      assert Attached(m, tables, PathOf(v, level));
      WalkReaches(m, tables, v, level + 1);
      WalkStep(m, tables, v, level + 1);
    }
  }

  /** The walk passes through every table above the level where it hits. */
  lemma {:induction false} WalkPasses(m: seq<Frame>, tables: TableMap, v: Word, level: nat)
    requires Shaped(m, tables) && level <= TOP_LEVEL
    requires View(m, tables, v).Some? && View(m, tables, v).value.level <= level
    ensures PathOf(v, level) in tables
    decreases TOP_LEVEL - level
  {
    hide Present, PageFlag, Target, Index, Depth;
    if level < TOP_LEVEL {
      WalkPasses(m, tables, v, level + 1);
      WalkReaches(m, tables, v, level + 1);
      WalkStep(m, tables, v, level + 1);
    }
  }

  // ---------------------------------------------------------------- memory changes elsewhere

  ghost predicate Agree(m: seq<Frame>, m': seq<Frame>, tables: TableMap) {
    |m'| == |m| && forall p :: p in tables && tables[p] < |m| ==> m'[tables[p]] == m[tables[p]]
  }

  lemma {:induction false} WalkAgrees(m: seq<Frame>, m': seq<Frame>, tables: TableMap, v: Word, level: nat)
    requires Shaped(m, tables) && Agree(m, m', tables) && level <= TOP_LEVEL && PathOf(v, level) in tables
    ensures Walk(m', tables[PathOf(v, level)], level, v) == Walk(m, tables[PathOf(v, level)], level, v)
    decreases level
  {
    hide Present, PageFlag, Target, Index, Depth;
    WalkStep(m, tables, v, level);
    if Inner(level, Slot(m, tables, PathOf(v, level), Index(v, level))) {
      WalkAgrees(m, m', tables, v, level - 1);
    }
  }

  /** Whatever leaves the tables alone leaves every translation alone. */
  lemma AgreeKeeps(m: seq<Frame>, m': seq<Frame>, tables: TableMap)
    requires Shaped(m, tables) && Agree(m, m', tables)
    ensures Shaped(m', tables)
    ensures forall v: Word :: View(m', tables, v) == View(m, tables, v)
  {
    hide Present, PageFlag, Target, Index, Depth, Walk;
    forall p | p in tables && p.Sub? ensures Attached(m', tables, p) {
      assert Attached(m, tables, p);
    }
    forall v: Word ensures View(m', tables, v) == View(m, tables, v) {
      WalkAgrees(m, m', tables, v, TOP_LEVEL);
    }
  }

  // ---------------------------------------------------------------- the three kinds of write

  /** Writing a leaf or a hole over a leaf or a hole. */
  lemma StoreLeaf(m: seq<Frame>, tables: TableMap, p: Path, i: nat, w: Word)
    requires Shaped(m, tables) && Injective(tables) && p in tables && i < FRAME_WORDS
    requires !Inner(Level(p), Slot(m, tables, p, i)) && !Inner(Level(p), w)
    ensures var m' := Written(m, tables[p], i, w);
            && Shaped(m', tables)
            && forall v: Word :: View(m', tables, v) ==
                 if !Through(v, p, i) then View(m, tables, v)
                 else if Present(w) then Some(Hit(w, Level(p))) else None
  {
    hide Present, PageFlag, Target, Index, Depth, Walk, Through;
    var m' := Written(m, tables[p], i, w);
    ViewAfterWrite(m, tables, p, i, w);
    forall q | q in tables && q.Sub? ensures Attached(m', tables, q) {
      assert Attached(m, tables, q);
    }
    forall q, j: nat | q in tables && j < FRAME_WORDS && Inner(Level(q), Slot(m', tables, q, j))
      ensures Sub(q, j) in tables
    {
      if q != p || j != i { assert Slot(m', tables, q, j) == Slot(m, tables, q, j); }
    }
  }

  ghost predicate EmptyTable(f: Frame) {
    forall i: nat :: i < FRAME_WORDS ==> !Present(f[i])
  }

  /** Hanging an empty table into a hole. */
  lemma LinkTable(m: seq<Frame>, tables: TableMap, p: Path, i: nat, w: Word, c: nat)
    requires Shaped(m, tables) && Injective(tables) && p in tables && i < FRAME_WORDS
    requires !Present(Slot(m, tables, p, i)) && Inner(Level(p), w) && Target(w) == c
    requires c < |m| && c !in tables.Values && EmptyTable(m[c])
    ensures var m' := Written(m, tables[p], i, w);
            var tables' := tables[Sub(p, i) := c];
            && Shaped(m', tables') && Injective(tables')
            && forall v: Word :: View(m', tables', v) == View(m, tables, v)
  {
    hide Present, PageFlag, Target, Index, Walk, Through;
    var m' := Written(m, tables[p], i, w);
    var tables' := tables[Sub(p, i) := c];
    NoTableInHole(m, tables, p, i);
    LinkShape(m, tables, p, i, w, c);
    ViewAfterWrite(m, tables, p, i, w);
    forall v: Word ensures View(m', tables', v) == View(m, tables, v) {
      if Through(v, p, i) {
        ThroughHole(m, tables, p, i, v);
        EmptyWalk(m', c, Level(p) - 1, v);
      }
    }
  }

  lemma NoTableInHole(m: seq<Frame>, tables: TableMap, p: Path, i: nat)
    requires Shaped(m, tables) && p in tables && i < FRAME_WORDS && !Inner(Level(p), Slot(m, tables, p, i))
    ensures Sub(p, i) !in tables
  {
    hide Present, PageFlag, Target, Depth;
  }

  lemma LinkShape(m: seq<Frame>, tables: TableMap, p: Path, i: nat, w: Word, c: nat)
    requires Shaped(m, tables) && Injective(tables) && p in tables && i < FRAME_WORDS
    requires !Present(Slot(m, tables, p, i)) && Inner(Level(p), w) && Target(w) == c
    requires c < |m| && c !in tables.Values && EmptyTable(m[c]) && Sub(p, i) !in tables
    ensures var m' := Written(m, tables[p], i, w);
            Shaped(m', tables[Sub(p, i) := c]) && Injective(tables[Sub(p, i) := c])
  {
    hide Present, PageFlag, Target;
    var m' := Written(m, tables[p], i, w);
    var tables' := tables[Sub(p, i) := c];
    assert forall q :: q in tables ==> tables[q] != c;
    assert InRam(m', tables');
    forall q | q in tables' && q.Sub? ensures Attached(m', tables', q) {
      if q != Sub(p, i) {
        assert Attached(m, tables, q);
        assert Slot(m', tables', q.parent, q.index) == Slot(m, tables, q.parent, q.index);
      }
    }
    forall q, j: nat | q in tables' && j < FRAME_WORDS && Inner(Level(q), Slot(m', tables', q, j))
      ensures Sub(q, j) in tables'
    {
      if q != Sub(p, i) && (q != p || j != i) {
        assert Slot(m', tables', q, j) == Slot(m, tables, q, j);
      }
    }
  }

  lemma ThroughHole(m: seq<Frame>, tables: TableMap, p: Path, i: nat, v: Word)
    requires Shaped(m, tables) && p in tables && i < FRAME_WORDS
    requires !Present(Slot(m, tables, p, i)) && Through(v, p, i)
    ensures View(m, tables, v) == None
  {
    hide Present, PageFlag, Target, Index, Depth;
    WalkReaches(m, tables, v, Level(p));
  }

  lemma EmptyWalk(m: seq<Frame>, c: nat, level: nat, v: Word)
    requires c < |m| && EmptyTable(m[c])
    ensures Walk(m, c, level, v) == None
  {
    hide Present, Index;
  }

  /** Taking an empty table out and leaving a hole. */
  lemma UnlinkTable(m: seq<Frame>, tables: TableMap, p: Path, i: nat, w: Word)
    requires Shaped(m, tables) && Injective(tables) && p in tables && i < FRAME_WORDS
    requires Sub(p, i) in tables && EmptyTable(m[tables[Sub(p, i)]]) && !Present(w)
    ensures var m' := Written(m, tables[p], i, w);
            var tables' := tables - {Sub(p, i)};
            && Shaped(m', tables') && Injective(tables')
            && forall v: Word :: View(m', tables', v) == View(m, tables, v)
  {
    hide Present, PageFlag, Target, Index, Walk, Through;
    var m' := Written(m, tables[p], i, w);
    var c := Sub(p, i);
    UnlinkShape(m, tables, p, i, w);
    ViewAfterWrite(m, tables, p, i, w);
    forall v: Word ensures View(m', tables - {c}, v) == View(m, tables, v) {
      if Through(v, p, i) { ThroughEmpty(m, tables, p, i, v); }
    }
  }

  lemma UnlinkShape(m: seq<Frame>, tables: TableMap, p: Path, i: nat, w: Word)
    requires Shaped(m, tables) && Injective(tables) && p in tables && i < FRAME_WORDS
    requires Sub(p, i) in tables && EmptyTable(m[tables[Sub(p, i)]]) && !Present(w)
    ensures var m' := Written(m, tables[p], i, w);
            Shaped(m', tables - {Sub(p, i)}) && Injective(tables - {Sub(p, i)})
  {
    hide Present, PageFlag, Target;
    var m' := Written(m, tables[p], i, w);
    var c := Sub(p, i);
    var tables' := tables - {c};
    assert InRam(m', tables');
    forall q | q in tables' && q.Sub? ensures Attached(m', tables', q) {
      assert Attached(m, tables, q);
      assert Slot(m', tables', q.parent, q.index) == Slot(m, tables, q.parent, q.index);
    }
    forall q, j: nat | q in tables' && j < FRAME_WORDS && Inner(Level(q), Slot(m', tables', q, j))
      ensures Sub(q, j) in tables'
    {
      assert q != p || j != i;
      assert Slot(m', tables', q, j) == Slot(m, tables, q, j);
    }
  }

  lemma ThroughEmpty(m: seq<Frame>, tables: TableMap, p: Path, i: nat, v: Word)
    requires Shaped(m, tables) && p in tables && i < FRAME_WORDS
    requires Sub(p, i) in tables && EmptyTable(m[tables[Sub(p, i)]]) && Through(v, p, i)
    ensures View(m, tables, v) == None
  {
    hide Present, PageFlag, Target, Index;
    assert Attached(m, tables, Sub(p, i));
    WalkReaches(m, tables, v, Level(p) - 1);
  }
}

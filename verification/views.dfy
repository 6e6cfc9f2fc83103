/** What page tables mean, and when they hold nothing but what they need to. */
module Views {
  import opened Memory
  import opened Entries
  import opened Tables

  /** For canonical addresses, going through one slot is lying in one page. */
  lemma ThroughIsSamePage(u: Word, v: Word, level: nat)
    requires Canonical(u) && Canonical(v) && level <= TOP_LEVEL
    ensures Through(u, PathOf(v, level), Index(v, level)) <==> SamePage(u, v, level)
  {
    hide Index, SamePage, Canonical;
    IndicesIdentifyPage(u, v, level);
    PathIsIndices(u);
    PathIsIndices(v);
  }

  lemma PathIsIndices(v: Word)
    ensures PathOf(v, 3) == Root && PathOf(v, 2) == Sub(Root, Index(v, 3))
    ensures PathOf(v, 1) == Sub(Sub(Root, Index(v, 3)), Index(v, 2))
    ensures PathOf(v, 0) == Sub(Sub(Sub(Root, Index(v, 3)), Index(v, 2)), Index(v, 1))
  {
    hide Index;
  }

  ghost predicate SmallIndices(p: Path) {
    p.Sub? ==> p.index < FRAME_WORDS && SmallIndices(p.parent)
  }

  lemma {:induction false} TablePathsAreSmall(m: seq<Frame>, tables: TableMap, p: Path)
    requires Shaped(m, tables) && p in tables
    ensures SmallIndices(p)
    decreases p
  {
    hide Present, PageFlag, Target;
    if p.Sub? {
      assert Attached(m, tables, p);
      TablePathsAreSmall(m, tables, p.parent);
    }
  }

  /** Some canonical address goes through any given slot. */
  lemma AddressThrough(p: Path, i: nat) returns (v: Word)
    requires SmallIndices(p) && Depth(p) <= TOP_LEVEL && i < FRAME_WORDS
    ensures Canonical(v) && Through(v, p, i)
  {
    hide Index, Canonical;
    match p
    case Root => v := AddressOf(i, 0, 0, 0);
    case Sub(Root, a) => v := AddressOf(a, i, 0, 0);
    case Sub(Sub(Root, a), b) => v := AddressOf(a, b, i, 0);
    case Sub(Sub(Sub(q, a), b), c) =>
      assert SmallIndices(Sub(q, a)) && Depth(Sub(q, a)) == 1 + Depth(q);
      v := AddressOf(a, b, c, i);
    PathIsIndices(v);
  }

  /** No table below the root is empty. */
  ghost predicate Tidy(m: seq<Frame>, tables: TableMap) {
    forall p :: p in tables && p != Root && tables[p] < |m| ==> !EmptyTable(m[tables[p]])
  }

  /** In tidy tables a present slot leads to a mapped address. */
  lemma {:induction false} MappedBelow(m: seq<Frame>, tables: TableMap, p: Path, i: nat) returns (v: Word)
    requires Shaped(m, tables) && Tidy(m, tables) && p in tables && i < FRAME_WORDS
    requires Present(Slot(m, tables, p, i))
    ensures Canonical(v) && Through(v, p, i)
    ensures View(m, tables, v).Some? && View(m, tables, v).value.level <= Level(p)
    decreases Level(p)
  {
    hide Present, PageFlag, Target, Index, Canonical;
    TablePathsAreSmall(m, tables, p);
    if Inner(Level(p), Slot(m, tables, p, i)) {
      var c := Sub(p, i);
      assert c in tables;
      var j: nat :| j < FRAME_WORDS && Present(m[tables[c]][j]);
      v := MappedBelow(m, tables, c, j);
    } else {
      v := AddressThrough(p, i);
      WalkReaches(m, tables, v, Level(p));
    }
  }

  /** In tidy tables every table below the root carries a mapping of some canonical address. */
  lemma TableHasMapping(m: seq<Frame>, tables: TableMap, p: Path) returns (v: Word)
    requires Shaped(m, tables) && Tidy(m, tables) && p in tables && p != Root
    ensures Canonical(v) && PathOf(v, Level(p)) == p
    ensures View(m, tables, v).Some? && View(m, tables, v).value.level <= Level(p)
  {
    hide Present, PageFlag, Target, Index, Canonical, Walk;
    var j: nat :| j < FRAME_WORDS && Present(m[tables[p]][j]);
    v := MappedBelow(m, tables, p, j);
  }

  ghost predicate SameView(m: seq<Frame>, tables: TableMap, m': seq<Frame>, tables': TableMap)
    requires InRam(m, tables) && InRam(m', tables')
  {
    forall v: Word :: Canonical(v) ==> View(m', tables', v) == View(m, tables, v)
  }

  /** Tidy tables are determined by the translations: two tidy tables with the same view have
      tables at the same paths. */
  lemma ViewDeterminesPaths(m: seq<Frame>, tables: TableMap, m': seq<Frame>, tables': TableMap)
    requires Shaped(m, tables) && Tidy(m, tables)
    requires Shaped(m', tables') && Tidy(m', tables')
    requires SameView(m, tables, m', tables')
    ensures tables.Keys == tables'.Keys
  {
    hide Shaped, Tidy, Canonical, Walk, View;
    forall p | p in tables ensures p in tables' {
      TableSurvives(m, tables, m', tables', p);
    }
    forall p | p in tables' ensures p in tables {
      TableSurvives(m', tables', m, tables, p);
    }
  }

  lemma TableSurvives(m: seq<Frame>, tables: TableMap, m': seq<Frame>, tables': TableMap, p: Path)
    requires Shaped(m, tables) && Tidy(m, tables) && Shaped(m', tables') && p in tables
    requires SameView(m, tables, m', tables')
    ensures p in tables'
  {
    hide Tidy, Canonical, Walk, View, Attached, Present, PageFlag, Target, Index;
    if p != Root {
      var v := TableHasMapping(m, tables, p);
      WalkPasses(m', tables', v, Level(p));
    }
  }

  /** In tidy tables, the slot for a page is present exactly when some address of the page is mapped. */
  lemma SlotPresentIffMapped(m: seq<Frame>, tables: TableMap, virt: Word, level: nat)
    requires Shaped(m, tables) && Tidy(m, tables) && Canonical(virt) && level <= TOP_LEVEL
    requires PathOf(virt, level) in tables
    ensures Present(Slot(m, tables, PathOf(virt, level), Index(virt, level))) <==>
            exists u: Word :: Canonical(u) && SamePage(u, virt, level) && View(m, tables, u).Some?
  {
    hide Present, PageFlag, Target, Index, Canonical, Attached, Tidy, SamePage, View;
    var p, i := PathOf(virt, level), Index(virt, level);
    if Present(Slot(m, tables, p, i)) {
      var u := MappedBelow(m, tables, p, i);
      ThroughIsSamePage(u, virt, level);
      assert Canonical(u) && SamePage(u, virt, level) && View(m, tables, u).Some?;
    } else {
      forall u: Word | Canonical(u) && SamePage(u, virt, level) ensures View(m, tables, u) == None {
        ThroughIsSamePage(u, virt, level);
        ThroughHole(m, tables, p, i, u);
      }
    }
  }
}

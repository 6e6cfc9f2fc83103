/** What the virtual memory manager's operations do, stated on snapshots.

  A snapshot is physical memory, the map of reachable tables and the allocator's tags.  The
  relations below are what the methods of `Vmm` ensure; the lemmas about them are the theorems about
  mapping, unmapping and rolling back.
 */
module VmmSpec {
  import opened Alignment
  import opened BuddyTags
  import opened Memory
  import opened Entries
  import opened Tables
  import opened Views

  datatype Snap = Snap(m: seq<Frame>, tables: TableMap, tags: Tags)

  /** The tables form a tree in owned memory: each is reached by one path and none is free. */
  ghost predicate Sound(s: Snap) {
    && InRam(s.m, s.tables) && Shaped(s.m, s.tables) && Injective(s.tables)
    && Good(s.tags) && |s.tags| <= |s.m| && |s.tags| <= ADDRESS_FRAMES
    && s.tables.Values !! FreeSet(s.tags)
    && forall p :: p in s.tables ==> s.tables[p] < |s.tags|
  }

  ghost function At(s: Snap, v: Word): Option<Hit>
    requires InRam(s.m, s.tables)
  {
    View(s.m, s.tables, v)
  }

  /** What `translate` answers: the physical address and the flag bits of the leaf. */
  ghost function Translation(s: Snap, v: Word): Option<(PAddr, Word)>
    requires InRam(s.m, s.tables)
  {
    if !Canonical(v) then None else
      match At(s, v)
      case None => None
      case Some(hit) => Some((Target(hit.entry) * FRAME_SIZE + v % Span(hit.level), FlagBits(hit.entry)))
  }

  /** Frames that are free or hold a table. */
  ghost function Pool(s: Snap): set<nat> {
    FreeSet(s.tags) + s.tables.Values
  }

  /** What every operation keeps: soundness, the root, the pool of frames and all other memory. */
  ghost predicate Evolves(s: Snap, s': Snap) {
    && Sound(s) && Sound(s')
    && |s'.tags| == |s.tags| && s'.tables[Root] == s.tables[Root]
    && Pool(s') == Pool(s) && SameOutside(s.m, s'.m, Pool(s))
  }

  ghost predicate SameTranslations(s: Snap, s': Snap)
    requires InRam(s.m, s.tables) && InRam(s'.m, s'.tables)
  {
    forall v: Word :: At(s', v) == At(s, v)
  }

  /** The page of `virt` at `level` now hits `hit`; every other canonical address is as before. */
  ghost predicate PageBecomes(s: Snap, s': Snap, virt: Word, level: nat, hit: Option<Hit>)
    requires InRam(s.m, s.tables) && InRam(s'.m, s'.tables)
  {
    forall v: Word :: Canonical(v) ==> At(s', v) == if SamePage(v, virt, level) then hit else At(s, v)
  }

  ghost predicate Extends(t: TableMap, t': TableMap) {
    forall p :: p in t ==> p in t' && t'[p] == t[p]
  }

  /** Present slots of tables of `s` are still there. */
  ghost predicate KeepsSlots(s: Snap, s': Snap)
    requires InRam(s.m, s.tables) && InRam(s'.m, s'.tables) && Extends(s.tables, s'.tables)
  {
    forall p, i: nat :: p in s.tables && i < FRAME_WORDS && Present(Slot(s.m, s.tables, p, i)) ==>
      Slot(s'.m, s'.tables, p, i) == Slot(s.m, s.tables, p, i)
  }

  /** Slots other than `i` at `p` are unchanged. */
  ghost predicate OtherSlotsSame(s: Snap, s': Snap, p: Path, i: nat)
    requires InRam(s.m, s.tables) && InRam(s'.m, s'.tables)
  {
    forall q, j: nat :: q in s.tables && q in s'.tables && j < FRAME_WORDS && !(q == p && j == i) ==>
      Slot(s'.m, s'.tables, q, j) == Slot(s.m, s.tables, q, j)
  }

  lemma EvolvesTrans(s0: Snap, s1: Snap, s2: Snap)
    requires Evolves(s0, s1) && Evolves(s1, s2)
    ensures Evolves(s0, s2)
  {
    hide Sound, Pool, SameOutside;
    SameOutsideTrans(s0.m, s1.m, s2.m, Pool(s0), Pool(s0), Pool(s0));
  }

  // ---------------------------------------------------------------- attaching and detaching a table

  /** An allocated, zeroed frame `c` hangs in the hole `i` of the table at `p`. */
  ghost predicate Attaches(s: Snap, s': Snap, p: Path, i: nat, c: nat) {
    && Evolves(s, s') && p in s.tables && i < FRAME_WORDS && Depth(p) < TOP_LEVEL
    && Sub(p, i) !in s.tables && s'.tables == s.tables[Sub(p, i) := c]
    && c in FreeSet(s.tags) && FreeSet(s'.tags) == FreeSet(s.tags) - {c}
    && EmptyTable(s'.m[c]) && SameTranslations(s, s') && OtherSlotsSame(s, s', p, i)
    && !Present(Slot(s.m, s.tables, p, i))
    && Inner(Level(p), Slot(s'.m, s'.tables, p, i)) && Target(Slot(s'.m, s'.tables, p, i)) == c
    && ParentFlags(FlagBits(Slot(s'.m, s'.tables, p, i)))
  }

  /** The empty table in slot `i` at `p` is gone and its frame is free. */
  ghost predicate Detaches(s: Snap, s': Snap, p: Path, i: nat) {
    && Evolves(s, s') && p in s.tables && i < FRAME_WORDS && Sub(p, i) in s.tables
    && s'.tables == s.tables - {Sub(p, i)}
    && FreeSet(s'.tags) == FreeSet(s.tags) + {s.tables[Sub(p, i)]}
    && SameTranslations(s, s') && OtherSlotsSame(s, s', p, i)
    && !Present(Slot(s'.m, s'.tables, p, i))
  }

  /** Free frames hold no table, so what the allocator writes leaves every table alone. */
  lemma AllocatorLeavesTables(s: Snap, m': seq<Frame>, free: set<nat>, tags': Tags)
    requires Sound(s) && Good(tags') && |tags'| == |s.tags| && FreeSet(tags') !! s.tables.Values
    requires free !! s.tables.Values && SameOutside(s.m, m', free)
    ensures Sound(Snap(m', s.tables, tags'))
    ensures SameTranslations(s, Snap(m', s.tables, tags'))
    ensures Agree(s.m, m', s.tables)
  {
    hide Shaped, Injective, Good, FreeSet, View;
    forall p | p in s.tables ensures s.tables[p] !in free {
      assert s.tables[p] in s.tables.Values;
    }
    AgreeKeeps(s.m, m', s.tables);
  }

  /** From a frame taken from the allocator and zeroed to an attached table. */
  lemma AttachSteps(s: Snap, m: seq<Frame>, tags': Tags, p: Path, i: nat, c: nat, w: Word)
    requires Sound(s) && p in s.tables && i < FRAME_WORDS && Depth(p) < TOP_LEVEL
    requires !Present(Slot(s.m, s.tables, p, i))
    requires c in FreeSet(s.tags) && FreeSet(tags') == FreeSet(s.tags) - {c}
    requires Good(tags') && |tags'| == |s.tags| && SameOutside(s.m, m, FreeSet(s.tags))
    requires c < |s.tags| && EmptyTable(m[c]) && Inner(Level(p), w) && Target(w) == c
    requires ParentFlags(FlagBits(w))
    ensures Attaches(s, Snap(Written(m, s.tables[p], i, w), s.tables[Sub(p, i) := c], tags'), p, i, c)
  {
    hide Shaped, Injective, Good, FreeSet, View, Present, PageFlag, Target, EmptyTable, SameOutside;
    AllocatorLeavesTables(s, m, FreeSet(s.tags), tags');
    LinkTable(m, s.tables, p, i, w, c);
    var s' := Snap(Written(m, s.tables[p], i, w), s.tables[Sub(p, i) := c], tags');
    NoTableInHole(s.m, s.tables, p, i);
    AttachPool(s, s', p, i, c);
    WriteInPool(s.m, m, s'.m, FreeSet(s.tags), s.tables, p, i, w);
    assert InRam(s'.m, s'.tables) && Sound(s');
    WriteKeepsOthers(s, m, s', p, i, w);
    assert s.tables[p] in s.tables.Values && s'.m[c] == m[c];
    assert SameTranslations(s, s');
  }

  lemma WriteKeepsOthers(s: Snap, m: seq<Frame>, s': Snap, p: Path, i: nat, w: Word)
    requires InRam(s.m, s.tables) && Injective(s.tables) && Agree(s.m, m, s.tables)
    requires InRam(s'.m, s'.tables) && p in s.tables && i < FRAME_WORDS
    requires s'.m == Written(m, s.tables[p], i, w)
    requires forall q :: q in s.tables && q in s'.tables ==> s'.tables[q] == s.tables[q]
    ensures OtherSlotsSame(s, s', p, i)
    ensures p in s'.tables ==> Slot(s'.m, s'.tables, p, i) == w
  {
    hide Depth;
  }

  lemma AttachPool(s: Snap, s': Snap, p: Path, i: nat, c: nat)
    requires Sub(p, i) !in s.tables && s'.tables == s.tables[Sub(p, i) := c]
    requires c in FreeSet(s.tags) && FreeSet(s'.tags) == FreeSet(s.tags) - {c}
    requires c !in s.tables.Values
    ensures s'.tables.Values == s.tables.Values + {c} && Pool(s') == Pool(s)
  {
    hide FreeSet;
    assert s'.tables[Sub(p, i)] == c;
    forall x | x in s.tables.Values ensures x in s'.tables.Values {
      var q :| q in s.tables && s.tables[q] == x;
      assert s'.tables[q] == x;
    }
  }

  lemma WriteInPool(m0: seq<Frame>, m: seq<Frame>, m': seq<Frame>, free: set<nat>, tables: TableMap, p: Path, i: nat, w: Word)
    requires SameOutside(m0, m, free) && p in tables && tables[p] < |m| && i < FRAME_WORDS
    requires m' == Written(m, tables[p], i, w)
    ensures SameOutside(m0, m', free + tables.Values)
  {
  }

  /** From a cleared slot and a released frame to a detached table. */
  lemma DetachSteps(s: Snap, m': seq<Frame>, tags': Tags, p: Path, i: nat)
    requires Sound(s) && p in s.tables && i < FRAME_WORDS && Sub(p, i) in s.tables
    requires EmptyTable(s.m[s.tables[Sub(p, i)]])
    requires Good(tags') && |tags'| == |s.tags|
    requires FreeSet(tags') == FreeSet(s.tags) + {s.tables[Sub(p, i)]}
    requires SameOutside(Written(s.m, s.tables[p], i, 0), m', FreeSet(tags'))
    ensures Detaches(s, Snap(m', s.tables - {Sub(p, i)}, tags'), p, i)
  {
    hide Shaped, Injective, Good, FreeSet, View, PageFlag, Target, EmptyTable, SameOutside;
    var m1 := Written(s.m, s.tables[p], i, 0);
    var s1 := Snap(m1, s.tables - {Sub(p, i)}, s.tags);
    var s' := Snap(m', s1.tables, tags');
    UnlinkTable(s.m, s.tables, p, i, 0);
    DetachPool(s, s', p, i);
    assert InRam(s1.m, s1.tables) && Sound(s1);
    AllocatorLeavesTables(s1, m', FreeSet(tags'), tags');
    SameOutsideSelf(s.m, {});
    WriteInPool(s.m, s.m, m1, {}, s.tables, p, i, 0);
    SameOutsideTrans(s.m, m1, m', {} + s.tables.Values, FreeSet(tags'), Pool(s));
    DetachSlots(s, s1, s', p, i);
    assert SameTranslations(s, s1);
    assert SameTranslations(s, s');
  }

  lemma DetachPool(s: Snap, s': Snap, p: Path, i: nat)
    requires Injective(s.tables) && Sub(p, i) in s.tables && s'.tables == s.tables - {Sub(p, i)}
    requires FreeSet(s'.tags) == FreeSet(s.tags) + {s.tables[Sub(p, i)]}
    requires s.tables.Values !! FreeSet(s.tags)
    ensures s'.tables.Values == s.tables.Values - {s.tables[Sub(p, i)]}
    ensures Pool(s') == Pool(s) && s'.tables.Values !! FreeSet(s'.tags)
  {
    hide FreeSet;
    var c := s.tables[Sub(p, i)];
    forall x | x in s.tables.Values && x != c ensures x in s'.tables.Values {
      var q :| q in s.tables && s.tables[q] == x;
      assert s'.tables[q] == x;
    }
    assert s.tables[Sub(p, i)] in s.tables.Values;
  }

  lemma DetachSlots(s: Snap, s1: Snap, s': Snap, p: Path, i: nat)
    requires Injective(s.tables) && InRam(s.m, s.tables) && InRam(s1.m, s1.tables) && InRam(s'.m, s'.tables)
    requires p in s.tables && i < FRAME_WORDS && s1.m == Written(s.m, s.tables[p], i, 0)
    requires s1.tables == s'.tables == s.tables - {Sub(p, i)} && Agree(s1.m, s'.m, s1.tables)
    ensures p in s'.tables && OtherSlotsSame(s, s', p, i) && !Present(Slot(s'.m, s'.tables, p, i))
  {
    hide Depth;
    assert p != Sub(p, i) by { PathNotOwnChild(p, i); }
    WriteKeepsOthers(s, s.m, s1, p, i, 0);
  }

  lemma {:induction false} PathNotOwnChild(p: Path, i: nat)
    ensures p != Sub(p, i)
  {
    assert Depth(Sub(p, i)) == Depth(p) + 1;
  }

  // ---------------------------------------------------------------- mapping a page

  ghost predicate NewTablesUsed(s: Snap, s': Snap) {
    forall q :: q in s'.tables && q !in s.tables && s'.tables[q] < |s'.m| ==> !EmptyTable(s'.m[s'.tables[q]])
  }

  /** The entries that name new tables allow writing and user access, so that the leaf decides. */
  ghost predicate NewLinksPermit(s: Snap, s': Snap)
    requires InRam(s'.m, s'.tables)
  {
    forall q, j: nat :: Sub(q, j) in s'.tables && Sub(q, j) !in s.tables ==>
      q in s'.tables && j < FRAME_WORDS && ParentFlags(FlagBits(Slot(s'.m, s'.tables, q, j)))
  }

  /** A successful `map`: exactly the page changes, tables are only added, and each is used. */
  ghost predicate MapsPage(s: Snap, s': Snap, virt: Word, level: nat, entry: Word) {
    && Evolves(s, s') && PageBecomes(s, s', virt, level, Some(Hit(entry, level)))
    && Extends(s.tables, s'.tables) && KeepsSlots(s, s') && NewTablesUsed(s, s')
    && NewLinksPermit(s, s')
  }

  /** A failed `map`: tables, free blocks and translations are as before. */
  ghost predicate Undone(s: Snap, s': Snap) {
    && Evolves(s, s') && s'.tables == s.tables && s'.tags == s.tags && SameTranslations(s, s')
    && KeepsSlots(s, s') && KeepsSlots(s', s)
  }

  /** `map` meets a present slot: a page in the way, or any entry where its own leaf would go. */
  ghost predicate Blocked(m: seq<Frame>, t: nat, level: nat, v: Word, leaf: nat)
    requires leaf <= level
    decreases level
  {
    && t < |m|
    && var w := m[t][Index(v, level)];
       Present(w) && (level == leaf || !Inner(level, w) || Blocked(m, Target(w), level - 1, v, leaf))
  }

  /** How many tables are missing on the way down to the leaf. */
  ghost function Missing(m: seq<Frame>, t: nat, level: nat, v: Word, leaf: nat): nat
    requires leaf <= level
    decreases level
  {
    if level == leaf || t >= |m| then 0 else
      var w := m[t][Index(v, level)];
      if !Present(w) then level - leaf
      else if Inner(level, w) then Missing(m, Target(w), level - 1, v, leaf) else 0
  }

  lemma EmptyTableIsOpen(m: seq<Frame>, t: nat, level: nat, v: Word, leaf: nat)
    requires leaf <= level && t < |m| && EmptyTable(m[t])
    ensures !Blocked(m, t, level, v, leaf) && Missing(m, t, level, v, leaf) == level - leaf
  {
    hide Present, PageFlag, Target, Index;
  }

  lemma StoreSteps(s: Snap, virt: Word, level: nat, w: Word)
    requires Sound(s) && Canonical(virt) && level <= TOP_LEVEL && PathOf(virt, level) in s.tables
    requires var p, i := PathOf(virt, level), Index(virt, level);
             !Inner(level, Slot(s.m, s.tables, p, i)) && !Inner(level, w)
    ensures var p, i := PathOf(virt, level), Index(virt, level);
            var s' := Snap(Written(s.m, s.tables[p], i, w), s.tables, s.tags);
            && Evolves(s, s') && OtherSlotsSame(s, s', p, i) && Slot(s'.m, s'.tables, p, i) == w
            && PageBecomes(s, s', virt, level, if Present(w) then Some(Hit(w, level)) else None)
  {
    hide Shaped, Injective, Good, FreeSet, View, PageFlag, Target, Present, SameOutside, Canonical, Index, SamePage;
    var p, i := PathOf(virt, level), Index(virt, level);
    var s' := Snap(Written(s.m, s.tables[p], i, w), s.tables, s.tags);
    StoreLeaf(s.m, s.tables, p, i, w);
    SameOutsideSelf(s.m, FreeSet(s.tags));
    WriteInPool(s.m, s.m, s'.m, FreeSet(s.tags), s.tables, p, i, w);
    WriteKeepsOthers(s, s.m, s', p, i, w);
    forall v: Word | Canonical(v)
      ensures At(s', v) == if SamePage(v, virt, level) then (if Present(w) then Some(Hit(w, level)) else None) else At(s, v)
    {
      ThroughIsSamePage(v, virt, level);
    }
  }

  lemma StoreMaps(s: Snap, s': Snap, virt: Word, level: nat, w: Word)
    requires Evolves(s, s') && level <= TOP_LEVEL && PathOf(virt, level) in s.tables && s'.tables == s.tables
    requires OtherSlotsSame(s, s', PathOf(virt, level), Index(virt, level))
    requires PageBecomes(s, s', virt, level, Some(Hit(w, level)))
    requires !Present(Slot(s.m, s.tables, PathOf(virt, level), Index(virt, level)))
    ensures MapsPage(s, s', virt, level, w)
  {
    hide Shaped, Injective, Good, FreeSet, View, Present, SameOutside, Canonical, SamePage, Pool, EmptyTable, Index;
  }

  lemma MapKeepsSlot(s: Snap, s': Snap, virt: Word, level: nat, entry: Word, p: Path, i: nat)
    requires MapsPage(s, s', virt, level, entry) && p in s.tables && i < FRAME_WORDS
    requires Present(Slot(s.m, s.tables, p, i))
    ensures p in s'.tables && Slot(s'.m, s'.tables, p, i) == Slot(s.m, s.tables, p, i)
    ensures s'.tables[p] == s.tables[p]
  {
    hide Shaped, Injective, Good, FreeSet, View, Present, SameOutside, Canonical, SamePage, Pool, EmptyTable;
  }

  lemma AttachThenMap(s: Snap, s1: Snap, s2: Snap, p: Path, i: nat, c: nat, virt: Word, level: nat, entry: Word)
    requires Attaches(s, s1, p, i, c) && MapsPage(s1, s2, virt, level, entry) && !EmptyTable(s2.m[c])
    ensures MapsPage(s, s2, virt, level, entry) && InRam(s2.m, s2.tables) && p in s2.tables && p in s.tables && i < FRAME_WORDS
    ensures s2.tables[p] == s.tables[p] && Present(Slot(s2.m, s2.tables, p, i))
  {
    hide Shaped, Injective, Good, FreeSet, View, PageFlag, Target, Present, SameOutside, Canonical, SamePage, Pool, EmptyTable;
    EvolvesTrans(s, s1, s2);
    assert Slot(s2.m, s2.tables, p, i) == Slot(s1.m, s1.tables, p, i);
    forall q, j: nat | q in s.tables && j < FRAME_WORDS && Present(Slot(s.m, s.tables, q, j))
      ensures Slot(s2.m, s2.tables, q, j) == Slot(s.m, s.tables, q, j)
    {
      assert Slot(s1.m, s1.tables, q, j) == Slot(s.m, s.tables, q, j);
    }
    forall v: Word | Canonical(v)
      ensures At(s2, v) == if SamePage(v, virt, level) then Some(Hit(entry, level)) else At(s, v)
    {
      assert At(s1, v) == At(s, v);
    }
  }

  lemma AttachedFacts(s: Snap, s': Snap, p: Path, i: nat, c: nat)
    requires Attaches(s, s', p, i, c)
    ensures Sound(s') && p in s.tables && s'.tables == s.tables[Sub(p, i) := c] && p != Sub(p, i)
    ensures c < |s'.m| && EmptyTable(s'.m[c]) && |FreeSet(s'.tags)| == |FreeSet(s.tags)| - 1
  {
    hide Shaped, Injective, Good, FreeSet, View, PageFlag, Target, Present, SameOutside, Pool;
    PathNotOwnChild(p, i);
    assert s'.tables[Sub(p, i)] == c;
  }

  lemma UndoneFacts(s: Snap, s': Snap)
    requires Undone(s, s')
    ensures Sound(s) && Sound(s') && s'.tables == s.tables && s'.tags == s.tags
  {
  }

  lemma UndoneHoles(s1: Snap, s2: Snap, q: Path)
    requires Undone(s1, s2) && q in s1.tables && EmptyTable(s1.m[s1.tables[q]])
    ensures EmptyTable(s2.m[s2.tables[q]])
  {
    hide Shaped, Injective, Good, FreeSet, View, PageFlag, Target, SameOutside, Pool;
    forall j: nat | j < FRAME_WORDS ensures !Present(s2.m[s2.tables[q]][j]) {
      assert Slot(s2.m, s2.tables, q, j) == s2.m[s2.tables[q]][j];
      assert Slot(s1.m, s1.tables, q, j) == s1.m[s1.tables[q]][j];
    }
  }

  lemma AttachThenUndo(s: Snap, s1: Snap, s2: Snap, s3: Snap, p: Path, i: nat, c: nat)
    requires Attaches(s, s1, p, i, c) && Undone(s1, s2) && Detaches(s2, s3, p, i)
    ensures Undone(s, s3)
  {
    hide Shaped, Injective, Good, FreeSet, View, PageFlag, Target, Present, SameOutside, Pool, EmptyTable;
    EvolvesTrans(s, s1, s2);
    EvolvesTrans(s, s2, s3);
    assert s3.tables == s.tables;
    assert FreeSet(s3.tags) == FreeSet(s.tags);
    FreeSetDeterminesTags(s.tags, s3.tags);
    forall q, j: nat | q in s.tables && j < FRAME_WORDS
      ensures Present(Slot(s.m, s.tables, q, j)) || Present(Slot(s3.m, s3.tables, q, j)) ==>
                Slot(s3.m, s3.tables, q, j) == Slot(s.m, s.tables, q, j)
    {
      if q != p || j != i {
        assert Slot(s1.m, s1.tables, q, j) == Slot(s.m, s.tables, q, j);
        assert Slot(s3.m, s3.tables, q, j) == Slot(s2.m, s2.tables, q, j);
      }
    }
    forall v: Word ensures At(s3, v) == At(s, v) {
      assert At(s1, v) == At(s, v) && At(s2, v) == At(s1, v) && At(s3, v) == At(s2, v);
    }
  }

  lemma UndoneSelf(s: Snap)
    requires Sound(s)
    ensures Undone(s, s)
  {
    hide Shaped, Injective, Good, FreeSet, View, PageFlag, Target, Present;
  }

  /** Mapping keeps tables tidy. */
  lemma MapKeepsTidy(s: Snap, s': Snap, virt: Word, level: nat, entry: Word)
    requires MapsPage(s, s', virt, level, entry) && Tidy(s.m, s.tables)
    ensures Tidy(s'.m, s'.tables)
  {
    hide Shaped, Injective, Good, FreeSet, View, PageFlag, Target, Present, SameOutside, Canonical, SamePage, Pool;
    forall q | q in s'.tables && q != Root ensures !EmptyTable(s'.m[s'.tables[q]]) {
      if q in s.tables {
        var j: nat :| j < FRAME_WORDS && Present(s.m[s.tables[q]][j]);
        assert Present(Slot(s.m, s.tables, q, j)) && Slot(s'.m, s'.tables, q, j) == s'.m[s'.tables[q]][j];
      }
    }
  }

  lemma UndoneKeepsTidy(s: Snap, s': Snap)
    requires Undone(s, s') && Tidy(s.m, s.tables)
    ensures Tidy(s'.m, s'.tables)
  {
    hide Shaped, Injective, Good, FreeSet, View, PageFlag, Target, Present, SameOutside, Pool;
    forall q | q in s'.tables && q != Root ensures !EmptyTable(s'.m[s'.tables[q]]) {
      var j: nat :| j < FRAME_WORDS && Present(s.m[s.tables[q]][j]);
      assert Present(Slot(s.m, s.tables, q, j)) && Slot(s'.m, s'.tables, q, j) == s'.m[s'.tables[q]][j];
    }
  }

  // ---------------------------------------------------------------- unmapping a page

  /** A successful `unmap`: exactly the page changes, tables are only removed, and none but the one
      at `p` has become empty. */
  ghost predicate UnmapsPage(s: Snap, s': Snap, virt: Word, level: nat, p: Path) {
    && Evolves(s, s') && PageBecomes(s, s', virt, level, None)
    && Extends(s'.tables, s.tables) && p in s'.tables
    && forall q :: q in s'.tables && q != p && EmptyTable(s'.m[s'.tables[q]]) ==> EmptyTable(s.m[s.tables[q]])
  }

  lemma SlotKeepsTable(s: Snap, s': Snap, p: Path, i: nat, q: Path)
    requires InRam(s.m, s.tables) && InRam(s'.m, s'.tables) && OtherSlotsSame(s, s', p, i)
    requires q in s.tables && q in s'.tables && q != p
    ensures EmptyTable(s'.m[s'.tables[q]]) <==> EmptyTable(s.m[s.tables[q]])
  {
    hide Present, Depth;
    assert forall j: nat :: j < FRAME_WORDS ==> Slot(s'.m, s'.tables, q, j) == Slot(s.m, s.tables, q, j);
    assert forall j: nat :: j < FRAME_WORDS ==> s'.m[s'.tables[q]][j] == Slot(s'.m, s'.tables, q, j);
    assert forall j: nat :: j < FRAME_WORDS ==> s.m[s.tables[q]][j] == Slot(s.m, s.tables, q, j);
  }

  lemma ClearUnmaps(s: Snap, s': Snap, virt: Word, level: nat)
    requires Evolves(s, s') && level <= TOP_LEVEL && s'.tables == s.tables
    requires PageBecomes(s, s', virt, level, None) && PathOf(virt, level) in s.tables
    requires OtherSlotsSame(s, s', PathOf(virt, level), Index(virt, level))
    ensures UnmapsPage(s, s', virt, level, PathOf(virt, level))
  {
    hide Shaped, Injective, Good, FreeSet, View, Present, SameOutside, Canonical, SamePage, Pool, EmptyTable, Index;
    var p, i := PathOf(virt, level), Index(virt, level);
    forall q | q in s'.tables && q != p && EmptyTable(s'.m[s'.tables[q]]) ensures EmptyTable(s.m[s.tables[q]]) {
      SlotKeepsTable(s, s', p, i, q);
    }
  }

  /** `reclaim_*` after the page is gone, when the table below `p` was left in place. */
  lemma UnmapKeepsChild(s: Snap, s': Snap, virt: Word, level: nat, p: Path, i: nat)
    requires UnmapsPage(s, s', virt, level, Sub(p, i)) && p in s'.tables
    requires !EmptyTable(s'.m[s'.tables[Sub(p, i)]])
    ensures UnmapsPage(s, s', virt, level, p)
  {
  }

  /** `reclaim_*` after the page is gone, when the table below `p` was empty and went too. */
  lemma UnmapThenDetach(s: Snap, s1: Snap, s2: Snap, virt: Word, level: nat, p: Path, i: nat)
    requires UnmapsPage(s, s1, virt, level, Sub(p, i)) && Detaches(s1, s2, p, i)
    ensures UnmapsPage(s, s2, virt, level, p)
  {
    hide Shaped, Injective, Good, FreeSet, View, Present, SameOutside, Canonical, SamePage, Pool, EmptyTable;
    EvolvesTrans(s, s1, s2);
    forall q | q in s2.tables && q != p && EmptyTable(s2.m[s2.tables[q]]) ensures EmptyTable(s.m[s.tables[q]]) {
      SlotKeepsTable(s1, s2, p, i, q);
    }
    forall v: Word | Canonical(v) ensures At(s2, v) == if SamePage(v, virt, level) then None else At(s, v) {
      assert At(s2, v) == At(s1, v);
    }
  }

  lemma UnmapKeepsTidy(s: Snap, s': Snap, virt: Word, level: nat)
    requires UnmapsPage(s, s', virt, level, Root) && Tidy(s.m, s.tables)
    ensures Tidy(s'.m, s'.tables)
  {
    hide Shaped, Injective, Good, FreeSet, View, Present, SameOutside, Canonical, SamePage, Pool, EmptyTable;
  }

  // ---------------------------------------------------------------- theorems

  lemma CoarserPage(u: Word, v: Word, a: nat, b: nat)
    requires a <= b <= TOP_LEVEL && SamePage(u, v, a)
    ensures SamePage(u, v, b)
    decreases b - a
  {
    hide SamePage;
    if a < b {
      NextIndex(u, v, a);
      CoarserPage(u, v, a + 1, b);
    }
  }

  ghost predicate SomeMapped(s: Snap, virt: Word, level: nat)
    requires InRam(s.m, s.tables)
  {
    exists u: Word :: Canonical(u) && SamePage(u, virt, level) && At(s, u).Some?
  }

  /** Exact conflict detection: in tidy tables `map` meets a present slot exactly when some address
      of the page is already mapped, by a page of whatever size. */
  lemma {:induction false} BlockedIffMapped(s: Snap, virt: Word, level: nat, leaf: nat)
    requires Sound(s) && Tidy(s.m, s.tables) && Canonical(virt) && leaf <= level <= TOP_LEVEL
    requires PathOf(virt, level) in s.tables
    ensures Blocked(s.m, s.tables[PathOf(virt, level)], level, virt, leaf) <==> SomeMapped(s, virt, leaf)
    decreases level
  {
    hide Present, PageFlag, Target, Index, Canonical, Attached, SamePage, View, Good, FreeSet, Injective, Tidy;
    var p, i := PathOf(virt, level), Index(virt, level);
    var w := Slot(s.m, s.tables, p, i);
    if level == leaf {
      SlotPresentIffMapped(s.m, s.tables, virt, level);
    } else if !Present(w) {
      forall u: Word | Canonical(u) && SamePage(u, virt, leaf) ensures At(s, u) == None {
        CoarserPage(u, virt, leaf, level);
        ThroughIsSamePage(u, virt, level);
        ThroughHole(s.m, s.tables, p, i, u);
      }
    } else if Inner(level, w) {
      WalkStep(s.m, s.tables, virt, level);
      BlockedIffMapped(s, virt, level - 1, leaf);
    } else {
      WalkReaches(s.m, s.tables, virt, level);
      WalkStep(s.m, s.tables, virt, level);
      SamePageSelf(virt, leaf);
      assert At(s, virt).Some?;
    }
  }

  /** Nothing in the way means nothing mapped, in any tables. */
  lemma {:induction false} OpenIsUnmapped(s: Snap, virt: Word, level: nat, leaf: nat)
    requires Sound(s) && Canonical(virt) && leaf <= level <= TOP_LEVEL && PathOf(virt, level) in s.tables
    requires !Blocked(s.m, s.tables[PathOf(virt, level)], level, virt, leaf)
    ensures !SomeMapped(s, virt, leaf)
    decreases level
  {
    hide Present, PageFlag, Target, Index, Canonical, Attached, SamePage, View, Good, FreeSet, Injective;
    var p, i := PathOf(virt, level), Index(virt, level);
    if !Present(Slot(s.m, s.tables, p, i)) {
      forall u: Word | Canonical(u) && SamePage(u, virt, leaf) ensures At(s, u) == None {
        CoarserPage(u, virt, leaf, level);
        ThroughIsSamePage(u, virt, level);
        ThroughHole(s.m, s.tables, p, i, u);
      }
    } else {
      WalkStep(s.m, s.tables, virt, level);
      OpenIsUnmapped(s, virt, level - 1, leaf);
    }
  }

  lemma SamePageSelf(v: Word, level: nat)
    ensures SamePage(v, v, level)
  {
  }

  /** Tidy tables with the translations they had, grown or shrunk in between, are the tables they
      were; then the allocator's free blocks are too. */
  lemma SameViewSameFrames(s: Snap, s': Snap)
    requires Evolves(s, s') && Tidy(s.m, s.tables) && Tidy(s'.m, s'.tables)
    requires forall v: Word :: Canonical(v) ==> At(s', v) == At(s, v)
    requires forall p :: p in s.tables && p in s'.tables ==> s'.tables[p] == s.tables[p]
    ensures s'.tables == s.tables && s'.tags == s.tags
  {
    hide Shaped, Injective, Good, FreeSet, View, SameOutside, Canonical, Tidy;
    ViewDeterminesPaths(s.m, s.tables, s'.m, s'.tables);
    assert s'.tables == s.tables;
    assert FreeSet(s'.tags) == FreeSet(s.tags);
    FreeSetDeterminesTags(s.tags, s'.tags);
  }

  /** `unmap` undoes `map`: translations, tables and the allocator's free blocks are restored. */
  lemma UnmapUndoesMap(s: Snap, s1: Snap, s2: Snap, virt: Word, level: nat, entry: Word)
    requires MapsPage(s, s1, virt, level, entry) && UnmapsPage(s1, s2, virt, level, Root)
    requires Tidy(s.m, s.tables) && !SomeMapped(s, virt, level)
    ensures forall v: Word :: Canonical(v) ==> At(s2, v) == At(s, v)
    ensures s2.tables == s.tables && s2.tags == s.tags && Tidy(s2.m, s2.tables)
  {
    hide Shaped, Injective, Good, FreeSet, View, SameOutside, Canonical, Tidy, SamePage, Pool, EmptyTable, KeepsSlots;
    MapKeepsTidy(s, s1, virt, level, entry);
    UnmapKeepsTidy(s1, s2, virt, level);
    EvolvesTrans(s, s1, s2);
    forall v: Word | Canonical(v) ensures At(s2, v) == At(s, v) {
      assert At(s1, v) == if SamePage(v, virt, level) then Some(Hit(entry, level)) else At(s, v);
    }
    SameViewSameFrames(s, s2);
  }

  /** After `map(virt, phys, flags, size)` every address `virt + k` of the 4 KiB, 2 MiB or 1 GiB page
      translates to `phys + k` with the requested flags. */
  lemma MappedPageTranslates(s: Snap, s': Snap, virt: Word, phys: PAddr, flags: Word, size: PageSize, k: nat)
    requires var bytes := match size case Base => 0x1000 case Large => 0x20_0000 case Huge => 0x4000_0000;
             virt % bytes == 0 && phys % bytes == 0 && k < bytes
    requires Canonical(virt) && phys < PHYS_LIMIT && Target(flags) == 0
    requires MapsPage(s, s', virt, size.Level(), size.Leaf(phys / FRAME_SIZE, flags))
    ensures virt + k < WORD_LIMIT && Canonical(virt + k)
    ensures Translation(s', virt + k).Some? && Translation(s', virt + k).value.0 == phys + k
    ensures size.FlagsOf(Translation(s', virt + k).value.1, flags)
  {
    hide Shaped, Injective, Good, Pool, SameOutside, View, Present, FlagBits, PageSize.Leaf;
    InPage(virt, phys, size, k);
    assert At(s', virt + k) == Some(Hit(size.Leaf(phys / FRAME_SIZE, flags), size.Level()));
  }

  lemma InPage(virt: Word, phys: PAddr, size: PageSize, k: nat)
    requires Canonical(virt) && virt % size.Bytes() == 0 && phys % size.Bytes() == 0 && k < size.Bytes()
    ensures virt + k < WORD_LIMIT && Canonical(virt + k) && SamePage(virt + k, virt, size.Level())
    ensures (virt + k) % size.Bytes() == k && phys / FRAME_SIZE * FRAME_SIZE == phys
  {
    hide Canonical;
    CanonicalRange(virt);
    OffsetInPage(virt, size, k);
    CanonicalRange(virt + k);
    FrameAligned(phys, size);
  }

  lemma OffsetInPage(virt: Word, size: PageSize, k: nat)
    requires virt % size.Bytes() == 0 && k < size.Bytes()
    ensures virt + k < WORD_LIMIT && (virt < 0x8000_0000_0000 ==> virt + k < 0x8000_0000_0000)
    ensures (virt + k) / size.Bytes() == virt / size.Bytes() && (virt + k) % size.Bytes() == k
  {
    match size
    case Base => InBasePage(virt / 0x1000, k);
    case Large => InLargePage(virt / 0x20_0000, k);
    case Huge => InHugePage(virt / 0x4000_0000, k);
  }

  lemma FrameAligned(phys: nat, size: PageSize)
    requires phys % size.Bytes() == 0
    ensures phys / FRAME_SIZE * FRAME_SIZE == phys
  {
    var q := phys / size.Bytes();
    match size
    case Base => FrameOfAddress(q);
    case Large => FrameOfAddress(512 * q);
    case Huge => FrameOfAddress(0x4_0000 * q);
  }

  /** Canonical addresses are the lowest and the highest 2^47. */
  lemma CanonicalRange(v: Word)
    ensures Canonical(v) <==> v < 0x8000_0000_0000 || 0xffff_8000_0000_0000 <= v
  {
  }

  lemma InBasePage(page: nat, k: nat)
    requires k < 0x1000
    ensures (page * 0x1000 + k) / 0x1000 == page && (page * 0x1000 + k) % 0x1000 == k
    ensures page * 0x1000 < WORD_LIMIT ==> page * 0x1000 + k < WORD_LIMIT
    ensures page * 0x1000 < 0x8000_0000_0000 ==> page * 0x1000 + k < 0x8000_0000_0000
  {
  }

  lemma InLargePage(page: nat, k: nat)
    requires k < 0x20_0000
    ensures (page * 0x20_0000 + k) / 0x20_0000 == page && (page * 0x20_0000 + k) % 0x20_0000 == k
    ensures page * 0x20_0000 < WORD_LIMIT ==> page * 0x20_0000 + k < WORD_LIMIT
    ensures page * 0x20_0000 < 0x8000_0000_0000 ==> page * 0x20_0000 + k < 0x8000_0000_0000
  {
  }

  lemma InHugePage(page: nat, k: nat)
    requires k < 0x4000_0000
    ensures (page * 0x4000_0000 + k) / 0x4000_0000 == page && (page * 0x4000_0000 + k) % 0x4000_0000 == k
    ensures page * 0x4000_0000 < WORD_LIMIT ==> page * 0x4000_0000 + k < WORD_LIMIT
    ensures page * 0x4000_0000 < 0x8000_0000_0000 ==> page * 0x4000_0000 + k < 0x8000_0000_0000
  {
  }
}

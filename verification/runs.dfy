/** Whole runs of the frame allocator: any sequence of allocations, releases of owned blocks and
  range additions.  One step here is what `AllocPages`, `FreePages` and `AddRange` of the class `Pmm`
  ensure; the caller's side is that it releases only blocks it was given.
 */
module AllocatorRuns {
  import opened Alignment
  import opened BuddyTags
  import opened Memory

  datatype Block = Block(frame: nat, order: nat)

  /** `added` is ghost bookkeeping: every frame ever handed to the allocator. */
  datatype State = State(tags: Tags, live: set<Block>, added: set<nat>)

  datatype Op = Alloc(order: nat, result: Option<nat>) | Release(block: Block) | Add(first: nat, count: nat)

  ghost function Frames(b: Block): set<nat> {
    Run(b.frame, b.order)
  }

  ghost function LiveFrames(live: set<Block>): set<nat> {
    set b, f | b in live && f in Frames(b) :: f
  }

  /** The caller's obligation. */
  ghost predicate Allowed(s: State, op: Op) {
    match op
    case Alloc(order, _) => order <= MAX_ORDER
    case Release(b) => b in s.live
    case Add(first, count) => first + count <= |s.tags| && Range(first, count) !! s.added
  }

  ghost predicate Step(s: State, op: Op, s': State) {
    && Allowed(s, op)
    && match op
       case Alloc(order, result) =>
         && Allocates(s.tags, s'.tags, order, result) && s'.added == s.added
         && s'.live == s.live + (if result.Some? then {Block(result.value, order)} else {})
       case Release(b) =>
         && Releases(s.tags, s'.tags, b.frame, b.order) && s'.added == s.added
         && s'.live == s.live - {b}
       case Add(first, count) =>
         && Adds(s.tags, s'.tags, first, count) && s'.added == s.added + Range(first, count)
         && s'.live == s.live
  }

  ghost predicate IsRun(states: seq<State>, ops: seq<Op>) {
    && |states| == |ops| + 1
    && forall i: nat :: i < |ops| ==> Step(states[i], ops[i], states[i + 1])
  }

  /** Live blocks are aligned, pairwise disjoint and not free; free plus live is what was added. */
  ghost predicate Conserved(s: State) {
    && Good(s.tags)
    && (forall b :: b in s.live ==> b.order <= MAX_ORDER && Aligned(b.frame, b.order) && Frames(b) !! FreeSet(s.tags))
    && (forall b, c :: b in s.live && c in s.live && b != c ==> Frames(b) !! Frames(c))
    && FreeSet(s.tags) + LiveFrames(s.live) == s.added
  }

  lemma LiveGrows(live: set<Block>, b: Block)
    ensures LiveFrames(live + {b}) == LiveFrames(live) + Frames(b)
  {
    hide Run;
    assert forall f :: f in Frames(b) ==> b in live + {b} && f in Frames(b);
  }

  lemma LiveShrinks(live: set<Block>, b: Block)
    requires b in live && forall c :: c in live && c != b ==> Frames(b) !! Frames(c)
    ensures LiveFrames(live - {b}) == LiveFrames(live) - Frames(b)
  {
    hide Run;
    LiveGrows(live - {b}, b);
    assert live - {b} + {b} == live;
    assert LiveFrames(live - {b}) !! Frames(b);
  }

  lemma StepConserves(s: State, op: Op, s': State)
    requires Conserved(s) && Step(s, op, s')
    ensures Conserved(s')
  {
    hide Run, Good, FreeSet, LiveFrames, Aligned, Range;
    match op
    case Alloc(order, None) => assert s'.live == s.live;
    case Alloc(order, Some(f)) => LiveGrows(s.live, Block(f, order));
    case Release(b) =>
      LiveShrinks(s.live, b);
      LiveContains(s.live, b);
    case Add(first, count) =>
      forall b | b in s.live ensures Frames(b) <= s.added { LiveContains(s.live, b); }
  }

  lemma LiveContains(live: set<Block>, b: Block)
    requires b in live
    ensures Frames(b) <= LiveFrames(live)
  {
    hide Run;
  }

  /** Conservation and disjointness over every run of owned frees. */
  lemma {:induction false} RunConserves(states: seq<State>, ops: seq<Op>)
    requires IsRun(states, ops) && Conserved(states[0])
    ensures forall i: nat :: i < |states| ==> Conserved(states[i])
    decreases |ops|
  {
    hide Step, Conserved;
    if ops != [] {
      var n := |ops| - 1;
      RunConserves(states[..n + 1], ops[..n]);
      assert Conserved(states[..n + 1][n]);
      StepConserves(states[n], ops[n], states[n + 1]);
      forall i: nat | i < |states| ensures Conserved(states[i]) {
        if i <= n { assert states[..n + 1][i] == states[i]; }
      }
    }
  }

  /** A release of a live block passes every assertion of `free_pages`. */
  lemma ReleaseIsAccepted(s: State, b: Block)
    requires Conserved(s) && b in s.live && (forall f :: f in s.added ==> f < |s.tags|)
    ensures b.order <= MAX_ORDER && b.frame + Pow2(b.order) <= |s.tags|
    ensures Aligned(b.frame, b.order) && Frames(b) !! FreeSet(s.tags)
  {
    hide Pow2, Interval, LiveFrames, FreeSet, Good;
    LiveContains(s.live, b);
    assert b.frame + Pow2(b.order) - 1 in Frames(b);
  }

  lemma {:induction false} RunKeepsSize(states: seq<State>, ops: seq<Op>)
    requires IsRun(states, ops)
    ensures |states[|ops|].tags| == |states[0].tags|
    ensures (forall i: nat :: i < |ops| ==> !ops[i].Add?) ==> states[|ops|].added == states[0].added
    decreases |ops|
  {
    hide Good, FreeSet;
    if ops != [] {
      var n := |ops| - 1;
      RunKeepsSize(states[..n + 1], ops[..n]);
      assert Step(states[n], ops[n], states[n + 1]);
      assert states[..n + 1][n] == states[n] && states[..n + 1][0] == states[0];
      assert forall i: nat :: i < n ==> ops[..n][i] == ops[i];
    }
  }

  /** Freeing restores the allocator: a run that ends with the blocks live that were live at its
      start, whatever it allocated and in whatever order it released it, ends with the identical
      decomposition into free blocks. */
  lemma RunRestores(states: seq<State>, ops: seq<Op>)
    requires IsRun(states, ops) && Conserved(states[0])
    requires forall i: nat :: i < |ops| ==> !ops[i].Add?
    requires states[|ops|].live == states[0].live
    ensures states[|ops|].tags == states[0].tags
  {
    hide Step, Good, FreeSet, LiveFrames, Run;
    var s, s' := states[0], states[|ops|];
    RunConserves(states, ops);
    RunKeepsSize(states, ops);
    assert Conserved(s');
    LiveNotFree(s);
    LiveNotFree(s');
    assert FreeSet(s.tags) == FreeSet(s'.tags);
    FreeSetDeterminesTags(s.tags, s'.tags);
  }

  lemma LiveNotFree(s: State)
    requires Conserved(s)
    ensures LiveFrames(s.live) !! FreeSet(s.tags)
  {
    hide Run, FreeSet, Good;
  }

  /** The order in which two ranges are added does not matter, down to every tag. */
  lemma AddOrderIrrelevant(t: Tags, ab1: Tags, ab: Tags, ba1: Tags, ba: Tags, a: nat, m: nat, b: nat, n: nat)
    requires Adds(t, ab1, a, m) && Adds(ab1, ab, b, n)
    requires Adds(t, ba1, b, n) && Adds(ba1, ba, a, m)
    ensures ab == ba
  {
    hide Good, FreeSet, Range;
    assert FreeSet(ab) == FreeSet(ba);
    FreeSetDeterminesTags(ab, ba);
  }
}

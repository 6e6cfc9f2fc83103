/** Physical memory, one 4 KiB frame of 512 words at a time.

  Everything the memory manager stores lives here: the allocator's intrusive list nodes, page
  tables and heap slabs.  A stored reference is the word `hhdm + 4096 * frame` (the address of the
  frame in the higher-half direct map), and 0 is `None`.
 */
module Memory {

  const FRAME_SIZE: nat := 0x1000
  const FRAME_WORDS: nat := 512
  const WORD_LIMIT: nat := 0x1_0000_0000_0000_0000

  type Word = w: nat | w < WORD_LIMIT
  type Frame = s: seq<Word> | |s| == FRAME_WORDS witness seq(FRAME_WORDS, _ => 0)
  const ZERO_FRAME: Frame := seq(FRAME_WORDS, _ => 0)
  /** A physical address. */
  type PAddr = nat

  datatype Option<+T> = None | Some(value: T)

  lemma FrameOfAddress(f: nat)
    ensures f * FRAME_SIZE / FRAME_SIZE == f && f * FRAME_SIZE % FRAME_SIZE == 0
  {
  }

  /** Only frames of `s` may differ. */
  ghost predicate SameOutside(m: seq<Frame>, m': seq<Frame>, s: set<nat>) {
    |m'| == |m| && forall g: nat :: g < |m| && g !in s ==> m'[g] == m[g]
  }

  lemma SameOutsideSelf(m: seq<Frame>, s: set<nat>)
    ensures SameOutside(m, m, s)
  {
  }

  lemma SameOutsideTrans(m0: seq<Frame>, m1: seq<Frame>, m2: seq<Frame>, s: set<nat>, s': set<nat>, t: set<nat>)
    requires SameOutside(m0, m1, s) && SameOutside(m1, m2, s') && s <= t && s' <= t
    ensures SameOutside(m0, m2, t)
  {
    forall g: nat | g < |m0| && g !in t ensures m2[g] == m0[g] {
      assert m1[g] == m0[g];
    }
  }

  class Ram {
    var frames: seq<Frame>

    constructor (frames: seq<Frame>)
      ensures this.frames == frames
    {
      this.frames := frames;
    }

    /** Writes one word and nothing else. */
    method Store(f: nat, i: nat, w: Word)
      requires f < |frames| && i < FRAME_WORDS
      modifies this
      ensures frames == old(frames)[f := old(frames)[f][i := w]]
    {
      frames := frames[f := frames[f][i := w]];
    }

    /** `zero_frame`. */
    method Zero(f: nat)
      requires f < |frames|
      modifies this
      ensures frames == old(frames)[f := ZERO_FRAME]
    {
      frames := frames[f := ZERO_FRAME];
    }
  }
}

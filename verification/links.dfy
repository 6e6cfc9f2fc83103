/** Intrusive doubly linked lists of frames: word 0 of a member frame is `prev`, word 1 is `next`. */
module Links {
  import opened Memory

  function Pointer(hhdm: nat, f: nat): nat {
    hhdm + f * FRAME_SIZE
  }

  ghost function PrevWord(hhdm: nat, list: seq<nat>, k: nat): nat
    requires k < |list|
  {
    if k == 0 then 0 else Pointer(hhdm, list[k - 1])
  }

  ghost function NextWord(hhdm: nat, list: seq<nat>, k: nat): nat
    requires k < |list|
  {
    if k + 1 == |list| then 0 else Pointer(hhdm, list[k + 1])
  }

  ghost predicate NoRepeats(list: seq<nat>) {
    forall i: nat, j: nat :: i < j < |list| ==> list[i] != list[j]
  }

  ghost predicate InRange(list: seq<nat>, n: nat) {
    forall k: nat :: k < |list| ==> list[k] < n
  }

  /** The nodes reached from `head` are `list`, forwards by `next` and backwards by `prev`. */
  ghost predicate Linked(m: seq<Frame>, hhdm: nat, head: nat, list: seq<nat>) {
    && NoRepeats(list) && InRange(list, |m|)
    && head == (if list == [] then 0 else Pointer(hhdm, list[0]))
    && forall k: nat :: k < |list| ==> LinkedAt(m, hhdm, list, k)
  }

  ghost predicate LinkedAt(m: seq<Frame>, hhdm: nat, list: seq<nat>, k: nat)
    requires k < |list| && list[k] < |m|
  {
    && m[list[k]][0] == PrevWord(hhdm, list, k)
    && m[list[k]][1] == NextWord(hhdm, list, k)
  }

  ghost predicate SameOn(m: seq<Frame>, m': seq<Frame>, list: seq<nat>) {
    |m| == |m'| && forall k: nat :: k < |list| && list[k] < |m| ==> m'[list[k]] == m[list[k]]
  }

  lemma LinkedFrame(m: seq<Frame>, m': seq<Frame>, hhdm: nat, head: nat, list: seq<nat>)
    requires Linked(m, hhdm, head, list) && SameOn(m, m', list)
    ensures Linked(m', hhdm, head, list)
  {
    forall k: nat | k < |list| ensures LinkedAt(m', hhdm, list, k) {
      assert LinkedAt(m, hhdm, list, k);
    }
  }

  /** Memory after `list_push`: the new node, then the old head's `prev`. */
  ghost function Pushed(m: seq<Frame>, hhdm: nat, head: Word, list: seq<nat>, f: nat): (m': seq<Frame>)
    requires f < |m| && Pointer(hhdm, f) < WORD_LIMIT
    requires InRange(list, |m|)
    ensures |m'| == |m|
  {
    var m1 := m[f := m[f][0 := 0][1 := head]];
    if list == [] then m1 else m1[list[0] := m1[list[0]][0 := Pointer(hhdm, f)]]
  }

  lemma PushLinks(m: seq<Frame>, hhdm: nat, head: Word, list: seq<nat>, f: nat)
    requires Linked(m, hhdm, head, list) && f !in list
    requires f < |m| && Pointer(hhdm, f) < WORD_LIMIT
    ensures Linked(Pushed(m, hhdm, head, list, f), hhdm, Pointer(hhdm, f), [f] + list)
  {
    var m', list' := Pushed(m, hhdm, head, list, f), [f] + list;
    assert m'[f] == m[f][0 := 0][1 := head];
    forall k: nat | k < |list'| ensures LinkedAt(m', hhdm, list', k) {
      if k > 0 { assert LinkedAt(m, hhdm, list, k - 1); }
    }
  }

  ghost function Without(list: seq<nat>, k: nat): (r: seq<nat>)
    requires k < |list|
    ensures |r| == |list| - 1
    ensures forall j: nat :: j < |r| ==> r[j] == if j < k then list[j] else list[j + 1]
  {
    list[..k] + list[k + 1..]
  }

  lemma WithoutElements(list: seq<nat>, k: nat, x: nat)
    requires k < |list| && NoRepeats(list)
    ensures x in Without(list, k) <==> x in list && x != list[k]
  {
    var r := Without(list, k);
    if x in list && x != list[k] {
      var j :| 0 <= j < |list| && list[j] == x;
      assert r[if j < k then j else j - 1] == x;
    }
    if x in r {
      var j :| 0 <= j < |r| && r[j] == x;
      assert list[if j < k then j else j + 1] == x;
    }
  }

  /** Memory after `list_remove` of the k-th node: its neighbours point past it. */
  ghost function Unlinked(m: seq<Frame>, list: seq<nat>, k: nat): (m': seq<Frame>)
    requires k < |list| && InRange(list, |m|)
    ensures |m'| == |m|
  {
    var node := m[list[k]];
    var m1 := if k == 0 then m else m[list[k - 1] := m[list[k - 1]][1 := node[1]]];
    if k + 1 == |list| then m1 else m1[list[k + 1] := m1[list[k + 1]][0 := node[0]]]
  }

  /** What removing the k-th node does to the i-th one. */
  lemma UnlinkedNode(m: seq<Frame>, hhdm: nat, head: Word, list: seq<nat>, k: nat, i: nat)
    requires Linked(m, hhdm, head, list) && k < |list| && i < |list| && i != k
    ensures var m' := Unlinked(m, list, k);
            && m'[list[i]][0] == (if i == k + 1 then PrevWord(hhdm, list, k) else PrevWord(hhdm, list, i))
            && m'[list[i]][1] == (if i + 1 == k then NextWord(hhdm, list, k) else NextWord(hhdm, list, i))
  {
    assert LinkedAt(m, hhdm, list, i) && LinkedAt(m, hhdm, list, k);
  }

  lemma RemoveLinks(m: seq<Frame>, hhdm: nat, head: Word, list: seq<nat>, k: nat)
    requires Linked(m, hhdm, head, list) && k < |list|
    ensures Linked(Unlinked(m, list, k), hhdm, if k == 0 then m[list[0]][1] else head, Without(list, k))
  {
    var m', list' := Unlinked(m, list, k), Without(list, k);
    assert LinkedAt(m, hhdm, list, k);
    forall j: nat | j < |list'| ensures LinkedAt(m', hhdm, list', j) {
      UnlinkedNode(m, hhdm, head, list, k, if j < k then j else j + 1);
    }
    assert forall j: nat :: j < |list'| ==> LinkedAt(m', hhdm, list', j);
  }

  /** Pushing writes only into the new node and the old head. */
  lemma PushedFrame(m: seq<Frame>, hhdm: nat, head: Word, list: seq<nat>, f: nat, g: nat)
    requires f < |m| && Pointer(hhdm, f) < WORD_LIMIT && InRange(list, |m|)
    requires g < |m| && g != f && g !in list
    ensures Pushed(m, hhdm, head, list, f)[g] == m[g]
  {
  }

  /** Removing writes only into the remaining nodes. */
  lemma UnlinkedFrame(m: seq<Frame>, list: seq<nat>, k: nat, g: nat)
    requires NoRepeats(list) && k < |list| && InRange(list, |m|)
    requires g < |m| && (g !in list || g == list[k])
    ensures Unlinked(m, list, k)[g] == m[g]
  {
  }
}

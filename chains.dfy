/** Where each forward link of a skip list must point, by level-0 position alone:
    the level-`i` link out of position `k` (the header for -1) leads to the node
    at the next position linked at level `i`, or to null. The lemmas say how those
    targets move when a node is inserted or removed at position `p`. */
module Chains {

  import opened Seqs
  import opened Levels

  const NIL: int := -1

  /** The pointer to the node at level-0 position `j`, null past the end. */
  function Target(order: seq<nat>, j: nat): int
    requires j <= |order|
  {
    if j < |order| then order[j] else NIL
  }

  /** Where the level-`i` link out of position `k` must point. */
  ghost function Succ(order: seq<nat>, levels: seq<nat>, k: int, i: nat): int
    requires |order| == |levels| && -1 <= k < |order|
  {
    Target(order, NextPos(levels, k, i))
  }

  /** Position `k` is on the level-`i` chain: the header, or a node linked at `i`. */
  predicate OnLevel(levels: seq<nat>, k: int, i: nat)
    requires -1 <= k < |levels|
  {
    k < 0 || levels[k] > i
  }

  /** Inserting node `x` at position `p`, linked at `l` levels, keeps the target
      of every level-`i` link out of a position before `p`, except the one out of
      the level-`i` predecessor of `p` (when `x` is linked at `i`). */
  lemma SuccInsertBefore(so: seq<nat>, sl: seq<nat>, p: nat, x: nat, l: nat, i: nat, k: int)
    requires |so| == |sl| && -1 <= k < p <= |so| && OnLevel(sl, k, i)
    requires l <= i || k != PrevPos(sl, p, i)
    ensures Succ(Ins(so, p, x), Ins(sl, p, l), k, i) == Succ(so, sl, k, i)
  {
    var q := NextPos(sl, k, i);
    NextPosInsertBefore(sl, p, l, i, k);
    if l > i {
      var a := PrevPos(sl, p, i);
      if k >= 0 {
        PrevPosLast(sl, p, i, k);
      }
      NextPosFirst(sl, k, i, a);
      assert q < p;
    }
  }

  /** Inserting a node at position `p` keeps the target of every link out of a
      position from `p` on, which moves one place on. */
  lemma SuccInsertAfter(so: seq<nat>, sl: seq<nat>, p: nat, x: nat, l: nat, i: nat, k: int)
    requires |so| == |sl| && p <= k < |so|
    ensures Succ(Ins(so, p, x), Ins(sl, p, l), k + 1, i) == Succ(so, sl, k, i)
  {
    NextPosInsertAfter(sl, p, l, i, k);
  }

  /** Inserting `x` at `p`, linked at level `i`: the level-`i` predecessor of `p`
      now leads to `x`. */
  lemma SuccInsertReaches(so: seq<nat>, sl: seq<nat>, p: nat, x: nat, l: nat, i: nat)
    requires |so| == |sl| && p <= |so| && i < l
    ensures Succ(Ins(so, p, x), Ins(sl, p, l), PrevPos(sl, p, i), i) == x
  {
    var a := PrevPos(sl, p, i);
    var q := NextPos(sl, a, i);
    if q < p {
      PrevPosLast(sl, p, i, q);
    }
    NextPosInsertBefore(sl, p, l, i, a);
    assert NextPos(Ins(sl, p, l), a, i) == p;
  }

  /** Inserting `x` at `p`: `x` leads where the level-`i` predecessor of `p` used to. */
  lemma SuccInsertInherits(so: seq<nat>, sl: seq<nat>, p: nat, x: nat, l: nat, i: nat)
    requires |so| == |sl| && p <= |so|
    ensures Succ(Ins(so, p, x), Ins(sl, p, l), p, i) == Succ(so, sl, PrevPos(sl, p, i), i)
  {
    var a := PrevPos(sl, p, i);
    var q := NextPos(sl, a, i);
    if q < p {
      PrevPosLast(sl, p, i, q);
    }
    NextPosInsertAfter(sl, p, l, i, p - 1);
    NextPosFrom(sl, a, p - 1, i);
    assert NextPos(Ins(sl, p, l), p, i) == q + 1;
  }

  /** Removing the node at position `p` keeps the target of every level-`i` link
      out of a position before `p`, except the one out of its level-`i`
      predecessor (when it is linked at `i`). */
  lemma SuccDeleteBefore(to: seq<nat>, tl: seq<nat>, p: nat, i: nat, k: int)
    requires |to| == |tl| && -1 <= k < p < |to| && OnLevel(tl, k, i)
    requires tl[p] <= i || k != PrevPos(tl, p, i)
    ensures Succ(Del(to, p), Del(tl, p), k, i) == Succ(to, tl, k, i)
  {
    var q := NextPos(tl, k, i);
    NextPosDeleteBefore(tl, p, i, k);
    if tl[p] > i {
      var a := PrevPos(tl, p, i);
      if k >= 0 {
        PrevPosLast(tl, p, i, k);
      }
      NextPosFirst(tl, k, i, a);
      assert q < p;
    } else {
      assert q != p;
    }
  }

  /** Removing the node at position `p` keeps the target of every link out of a
      later position, which moves one place back. */
  lemma SuccDeleteAfter(to: seq<nat>, tl: seq<nat>, p: nat, i: nat, k: int)
    requires |to| == |tl| && p < k < |to|
    ensures Succ(Del(to, p), Del(tl, p), k - 1, i) == Succ(to, tl, k, i)
  {
    NextPosDeleteAfter(tl, p, i, k - 1);
  }

  /** Removing the node at `p`, linked at level `i`: its level-`i` predecessor now
      leads where the node used to. */
  lemma SuccDeleteBridge(to: seq<nat>, tl: seq<nat>, p: nat, i: nat)
    requires |to| == |tl| && p < |to| && tl[p] > i
    ensures Succ(Del(to, p), Del(tl, p), PrevPos(tl, p, i), i) == Succ(to, tl, p, i)
  {
    var a := PrevPos(tl, p, i);
    PrevPosReaches(tl, p, i);
    NextPosDeleteBefore(tl, p, i, a);
    assert NextPos(Del(tl, p), a, i) == NextPos(tl, p, i) - 1;
  }
}

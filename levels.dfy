/** Level chains described by positions. A skip list whose level-0 chain has
    `n` nodes is summarised by `levels: seq<nat>` of length `n`: the node at
    position `k` is linked into the chains of levels `0 .. levels[k] - 1`.
    The level-`i` chain is then the subsequence of positions whose count
    exceeds `i`, and position -1 stands for the header, which is on every chain. */
module Levels {

  import opened Seqs

  function Max(a: nat, b: nat): nat {
    if a < b then b else a
  }

  /** The position of the level-`i` successor of position `k`: the first later
      position linked at level `i`, or `|levels|` (null) if there is none. */
  function NextPos(levels: seq<nat>, k: int, i: nat): (j: int)
    requires -1 <= k < |levels|
    ensures k < j <= |levels|
    ensures j < |levels| ==> levels[j] > i
    decreases |levels| - k
  {
    if k + 1 == |levels| then |levels|
    else if levels[k + 1] > i then k + 1
    else NextPos(levels, k + 1, i)
  }

  /** The position of the last node before position `p` that is linked at level
      `i`, or -1 (the header) if there is none: where the search descent leaves
      level `i` when looking for the boundary `p`. */
  function PrevPos(levels: seq<nat>, p: nat, i: nat): (j: int)
    requires p <= |levels|
    ensures -1 <= j < p
    ensures j >= 0 ==> levels[j] > i
  {
    if p == 0 then -1
    else if levels[p - 1] > i then p - 1
    else PrevPos(levels, p - 1, i)
  }

  /** No position strictly between `k` and its successor is linked at level `i`. */
  lemma {:induction false} NextPosFirst(levels: seq<nat>, k: int, i: nat, m: nat)
    requires -1 <= k < m < |levels| && levels[m] > i
    ensures NextPos(levels, k, i) <= m
    decreases m - k
  {
    if k + 1 < m && levels[k + 1] <= i {
      NextPosFirst(levels, k + 1, i, m);
    }
  }

  /** No position strictly between the predecessor of `p` and `p` is linked at level `i`. */
  lemma {:induction false} PrevPosLast(levels: seq<nat>, p: nat, i: nat, m: nat)
    requires m < p <= |levels| && levels[m] > i
    ensures m <= PrevPos(levels, p, i)
  {
    if m < p - 1 && levels[p - 1] <= i {
      PrevPosLast(levels, p - 1, i, m);
    }
  }

  /** Successors only depend on the suffix: shifting a suffix by `d` shifts its
      successor positions by `d`. */
  lemma {:induction false} NextPosShift(s: seq<nat>, t: seq<nat>, k: int, d: nat, i: nat)
    requires |t| == |s| + d && -1 <= k < |s|
    requires s[k + 1..] == t[k + 1 + d..]
    ensures NextPos(t, k + d, i) == NextPos(s, k, i) + d
    decreases |s| - k
  {
    if k + 1 < |s| {
      assert s[k + 1] == s[k + 1..][0] == t[k + 1 + d..][0] == t[k + 1 + d];
      if s[k + 1] <= i {
        assert s[k + 2..] == s[k + 1..][1..] == t[k + 1 + d..][1..] == t[k + 2 + d..];
        NextPosShift(s, t, k + 1, d, i);
      }
    }
  }

  /** Starting the search from any position before the successor of `a` finds the
      same successor. */
  lemma {:induction false} NextPosFrom(s: seq<nat>, a: int, b: int, i: nat)
    requires -1 <= a <= b < |s| && b < NextPos(s, a, i)
    ensures NextPos(s, b, i) == NextPos(s, a, i)
    decreases b - a
  {
    if a < b {
      NextPosFrom(s, a + 1, b, i);
    }
  }

  /** With no position linked at level `i`, every predecessor is the header. */
  lemma {:induction false} PrevPosNone(s: seq<nat>, p: nat, i: nat)
    requires p <= |s| && forall m :: 0 <= m < |s| ==> s[m] <= i
    ensures PrevPos(s, p, i) == -1
  {
    if p > 0 {
      PrevPosNone(s, p - 1, i);
    }
  }

  /** With no position linked at level `i`, every successor is null. */
  lemma {:induction false} NextPosNone(s: seq<nat>, k: int, i: nat)
    requires -1 <= k < |s| && forall m :: 0 <= m < |s| ==> s[m] <= i
    ensures NextPos(s, k, i) == |s|
    decreases |s| - k
  {
    if k + 1 < |s| {
      NextPosNone(s, k + 1, i);
    }
  }

  /** A position whose successor at level `i` lies at or beyond `p` is the
      predecessor of `p` at level `i`: where the descent stops on that level. */
  lemma {:induction false} PrevPosIs(s: seq<nat>, p: nat, i: nat, a: int)
    requires -1 <= a < p <= |s| && (a >= 0 ==> s[a] > i) && NextPos(s, a, i) >= p
    ensures PrevPos(s, p, i) == a
  {
    if a < p - 1 {
      NextPosFrom(s, a, p - 2, i);
      assert s[p - 1] <= i;
      PrevPosIs(s, p - 1, i, a);
    }
  }

  /** How successors change when a node linked at `l` levels is inserted at position
      `p`. A position before `p` keeps its successor if that lies before `p`;
      otherwise its successor becomes the new node (when it is linked at `i`) or
      moves one place on. */
  lemma {:induction false} NextPosInsertBefore(s: seq<nat>, p: nat, l: nat, i: nat, k: int)
    requires -1 <= k < p <= |s|
    ensures var q := NextPos(s, k, i);
            NextPos(Ins(s, p, l), k, i) == if q < p then q else if l > i then p else q + 1
    decreases p - k
  {
    var t := Ins(s, p, l);
    if k + 1 < p {
      assert t[k + 1] == s[k + 1];
      if s[k + 1] <= i {
        NextPosInsertBefore(s, p, l, i, k + 1);
      }
    } else if l <= i {
      NextPosInsertAfter(s, p, l, i, p - 1);
    }
  }

  /** A position at or after `p` (and the inserted node, standing for `p - 1`)
      keeps its successor, one place on. */
  lemma NextPosInsertAfter(s: seq<nat>, p: nat, l: nat, i: nat, k: int)
    requires p <= |s| && p - 1 <= k < |s|
    ensures NextPos(Ins(s, p, l), k + 1, i) == NextPos(s, k, i) + 1
  {
    var t := Ins(s, p, l);
    assert s[k + 1..] == t[k + 2..];
    NextPosShift(s, t, k, 1, i);
  }

  /** Deleting the node at position `p`: a position from `p - 1` on keeps its
      successor, one place back. */
  lemma NextPosDeleteAfter(t: seq<nat>, p: nat, i: nat, k: int)
    requires p < |t| && p - 1 <= k < |t| - 1
    ensures NextPos(Del(t, p), k, i) == NextPos(t, k + 1, i) - 1
  {
    var s := Del(t, p);
    assert s[k + 1..] == t[k + 2..];
    NextPosShift(s, t, k, 1, i);
  }

  /** Deleting the node at position `p`: a position before `p` keeps its successor
      if that lies before `p`; if it was `p`, it becomes the successor of `p`, and
      later successors move one place back. */
  lemma {:induction false} NextPosDeleteBefore(t: seq<nat>, p: nat, i: nat, k: int)
    requires -1 <= k < p < |t|
    ensures var q := NextPos(t, k, i);
            NextPos(Del(t, p), k, i) == if q < p then q else if q == p then NextPos(t, p, i) - 1 else q - 1
    decreases p - k
  {
    var s := Del(t, p);
    if k + 1 < p {
      assert s[k + 1] == t[k + 1];
      if t[k + 1] <= i {
        NextPosDeleteBefore(t, p, i, k + 1);
      }
    } else {
      NextPosDeleteAfter(t, p, i, p - 1);
    }
  }

  /** The predecessor chains before `p` do not depend on what follows `p`. */
  lemma {:induction false} PrevPosPrefix(s: seq<nat>, t: seq<nat>, p: nat, i: nat)
    requires p <= |s| && p <= |t| && s[..p] == t[..p]
    ensures PrevPos(s, p, i) == PrevPos(t, p, i)
  {
    if p > 0 {
      assert s[p - 1] == s[..p][p - 1] == t[..p][p - 1] == t[p - 1];
      assert s[..p - 1] == t[..p - 1] by {
        assert s[..p - 1] == s[..p][..p - 1];
        assert t[..p - 1] == t[..p][..p - 1];
      }
      PrevPosPrefix(s, t, p - 1, i);
    }
  }

  /** Leaving level `i` at the predecessor of `p`, the next link reaches `p` exactly
      when the node at `p` is linked at level `i`. */
  lemma PrevPosReaches(s: seq<nat>, p: nat, i: nat)
    requires p < |s|
    ensures NextPos(s, PrevPos(s, p, i), i) >= p
    ensures NextPos(s, PrevPos(s, p, i), i) == p <==> s[p] > i
  {
    var a := PrevPos(s, p, i);
    var q := NextPos(s, a, i);
    if q < p {
      PrevPosLast(s, p, i, q);
    }
    if s[p] > i {
      NextPosFirst(s, a, i, p);
    }
  }

  /** The coin outcome number `n` of the level draw: heads, or tails once the
      outcomes run out. */
  predicate Heads(flips: seq<bool>, n: nat) {
    n < |flips| && flips[n]
  }

  /** The level random_level draws with at most `maxLevel` levels: one, plus one per
      leading head, capped at `maxLevel` once that is reached. */
  function LevelFor(maxLevel: nat, flips: seq<bool>): (r: nat)
    ensures 1 <= r && (1 <= maxLevel ==> r <= maxLevel)
  {
    if maxLevel <= 1 || !Heads(flips, 0) then 1
    else 1 + LevelFor(maxLevel - 1, flips[1..])
  }

  /** The drawn level is geometric: every flip before the last level was heads,
      and the draw stopped at a tails unless it reached `maxLevel`. */
  lemma {:induction false} LevelForIsGeometric(maxLevel: nat, flips: seq<bool>)
    ensures var r := LevelFor(maxLevel, flips);
            (forall j :: 0 <= j < r - 1 ==> Heads(flips, j)) &&
            (r < maxLevel ==> !Heads(flips, r - 1))
  {
    if maxLevel > 1 && Heads(flips, 0) {
      LevelForIsGeometric(maxLevel - 1, flips[1..]);
      var r := LevelFor(maxLevel, flips);
      forall j | 0 <= j < r - 1 ensures Heads(flips, j) {
        if j > 0 {
          assert Heads(flips[1..], j - 1);
        }
      }
      if r < maxLevel {
        assert !Heads(flips[1..], r - 2);
      }
    }
  }

  /** The geometric description determines the level: a level `r` preceded only by
      heads, and stopped by tails unless it reached `maxLevel`, is the drawn one. */
  lemma {:induction false} LevelForUnique(maxLevel: nat, flips: seq<bool>, r: nat)
    requires 1 <= r && (r <= maxLevel || r == 1)
    requires forall j :: 0 <= j < r - 1 ==> Heads(flips, j)
    requires r < maxLevel ==> !Heads(flips, r - 1)
    ensures LevelFor(maxLevel, flips) == r
  {
    if r > 1 {
      assert Heads(flips, 0);
      forall j | 0 <= j < r - 2 ensures Heads(flips[1..], j) {
        assert Heads(flips, j + 1);
      }
      if r - 1 < maxLevel - 1 {
        assert !Heads(flips, r - 1);
      }
      LevelForUnique(maxLevel - 1, flips[1..], r - 1);
    }
  }
}

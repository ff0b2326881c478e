/** The node structure of a skip list, held in an arena. Node pointers are arena
    indices, null is `NIL`, and index `HEADER` is the header node: it holds the
    default value `T()` (0 for `int`) and `maxLevel` forward slots. Erased nodes
    stay in the arena, unreachable. */
module Arena {

  import opened Seqs
  import opened SortedSeq
  import opened Levels
  import opened Chains

  const HEADER: nat := 0

  /** One node: its value and one forward link per level it was created with. */
  datatype Node = Node(value: int, forward: seq<int>)

  /** `n` null pointers: a fresh `update` vector. */
  function Nulls(n: nat): (r: seq<int>)
    ensures |r| == n && forall j :: 0 <= j < n ==> r[j] == NIL
  {
    if n == 0 then [] else Nulls(n - 1) + [NIL]
  }

  /** The node at level-0 position `k`, the header for position -1. */
  function NodeAt(order: seq<nat>, k: int): nat
    requires -1 <= k < |order|
  {
    if k < 0 then HEADER else order[k]
  }

  /** `nodes[u]->forward[i] = v`. */
  function SetSlot(nodes: seq<Node>, u: nat, i: nat, v: int): (r: seq<Node>)
    requires u < |nodes| && i < |nodes[u].forward|
    ensures |r| == |nodes|
    ensures r[u] == Node(nodes[u].value, nodes[u].forward[i := v])
    ensures forall y {:trigger r[y]} :: 0 <= y < |r| && y != u ==> r[y] == nodes[y]
  {
    nodes[u := nodes[u].(forward := nodes[u].forward[i := v])]
  }

  /** The node at position `a` (the header for -1) occurs at no other position. */
  ghost predicate UniqueAt(order: seq<nat>, a: int)
    requires -1 <= a < |order|
  {
    forall k :: 0 <= k < |order| && order[k] == NodeAt(order, a) ==> k == a
  }

  /** `order` lists live element nodes (never the header), and each is linked at
      no more levels than it has slots. */
  ghost predicate Shape(nodes: seq<Node>, order: seq<nat>, levels: seq<nat>) {
    HEADER < |nodes| && |order| == |levels| &&
    forall k :: 0 <= k < |order| ==>
      HEADER < order[k] < |nodes| && levels[k] <= |nodes[order[k]].forward|
  }

  /** The level-`i` chain is exactly the positions linked at level `i`, in level-0
      order: the header's slot `i` and each such node's slot `i` point at the next
      one, and the last at null. */
  ghost predicate LevelLinked(nodes: seq<Node>, order: seq<nat>, levels: seq<nat>, i: nat)
    requires Shape(nodes, order, levels)
  {
    (i < |nodes[HEADER].forward| ==> nodes[HEADER].forward[i] == Succ(order, levels, -1, i)) &&
    forall k {:trigger nodes[order[k]].forward[i]} :: 0 <= k < |order| && i < levels[k] ==>
      nodes[order[k]].forward[i] == Succ(order, levels, k, i)
  }

  /** Slots of a node above the levels it is linked at are null. */
  ghost predicate NullAbove(nodes: seq<Node>, order: seq<nat>, levels: seq<nat>)
    requires Shape(nodes, order, levels)
  {
    forall k, i :: 0 <= k < |order| && levels[k] <= i < |nodes[order[k]].forward| ==>
      nodes[order[k]].forward[i] == NIL
  }

  /** The structural invariant of a skip list with ghost level-0 order `order`,
      link counts `levels` and values `elems`: the values increase along level 0,
      every node is on level 0, no node is linked above `currentLevel`, and every
      chain is linked as `LevelLinked` says (so each level-`i` chain is a
      subsequence of level 0, and header slots at or above `currentLevel` are null). */
  ghost predicate Linked(nodes: seq<Node>, maxLevel: nat, currentLevel: nat,
                         order: seq<nat>, levels: seq<nat>, elems: seq<int>)
  {
    Shape(nodes, order, levels) &&
    1 <= maxLevel && |nodes[HEADER].forward| == maxLevel && currentLevel <= maxLevel &&
    |elems| == |order| && Increasing(elems) &&
    (forall k :: 0 <= k < |order| ==>
       nodes[order[k]].value == elems[k] && 1 <= levels[k] <= currentLevel) &&
    NullAbove(nodes, order, levels) &&
    forall i :: 0 <= i < maxLevel ==> LevelLinked(nodes, order, levels, i)
  }

  /** Increasing values keep a node from occurring twice in the level-0 order. */
  lemma LinkedUniqueAt(nodes: seq<Node>, maxLevel: nat, currentLevel: nat,
                       order: seq<nat>, levels: seq<nat>, elems: seq<int>, a: int)
    requires Linked(nodes, maxLevel, currentLevel, order, levels, elems)
    requires -1 <= a < |order|
    ensures UniqueAt(order, a)
  {
    forall k | 0 <= k < |order| && order[k] == NodeAt(order, a) ensures k == a {
      if a >= 0 {
        assert elems[k] == nodes[order[k]].value == elems[a];
      }
    }
  }

  /** Header slots at or above `currentLevel` are null. */
  lemma HeaderNullAbove(nodes: seq<Node>, maxLevel: nat, currentLevel: nat,
                        order: seq<nat>, levels: seq<nat>, elems: seq<int>, i: nat)
    requires Linked(nodes, maxLevel, currentLevel, order, levels, elems)
    requires currentLevel <= i < maxLevel
    ensures nodes[HEADER].forward[i] == NIL
  {
    assert LevelLinked(nodes, order, levels, i);
  }

  /** A null header slot at level `i` means no node is linked at level `i`. */
  lemma HeaderNullEmpty(nodes: seq<Node>, maxLevel: nat, currentLevel: nat,
                        order: seq<nat>, levels: seq<nat>, elems: seq<int>, i: nat)
    requires Linked(nodes, maxLevel, currentLevel, order, levels, elems)
    requires i < maxLevel && nodes[HEADER].forward[i] == NIL
    ensures forall k :: 0 <= k < |order| ==> levels[k] <= i
  {
    assert LevelLinked(nodes, order, levels, i);
    forall k | 0 <= k < |order| ensures levels[k] <= i {
      if levels[k] > i {
        NextPosFirst(levels, -1, i, k);
      }
    }
  }

  /** The link the descent follows: leaving position `pos` (linked at level `i`, or
      the header) along level `i` reaches position `NextPos(levels, pos, i)`. */
  lemma LinkStep(nodes: seq<Node>, maxLevel: nat, currentLevel: nat,
                 order: seq<nat>, levels: seq<nat>, elems: seq<int>, pos: int, i: nat)
    requires Linked(nodes, maxLevel, currentLevel, order, levels, elems)
    requires i < maxLevel && -1 <= pos < |order| && OnLevel(levels, pos, i)
    ensures var q := NextPos(levels, pos, i);
            i < |nodes[NodeAt(order, pos)].forward| &&
            nodes[NodeAt(order, pos)].forward[i] == Target(order, q) &&
            (q < |order| ==> HEADER < order[q] < |nodes| && nodes[order[q]].value == elems[q])
  {
    assert LevelLinked(nodes, order, levels, i);
  }

  /** Level 0 links every element to the next one: the header leads to the first
      element, each element to its level-0 successor, the last one to null. This is
      what the iterator's `++` follows. */
  lemma LevelZeroLinks(nodes: seq<Node>, maxLevel: nat, currentLevel: nat,
                       order: seq<nat>, levels: seq<nat>, elems: seq<int>)
    requires Linked(nodes, maxLevel, currentLevel, order, levels, elems)
    ensures nodes[HEADER].forward[0] == Target(order, 0)
    ensures forall k {:trigger nodes[order[k]].forward[0]} :: 0 <= k < |order| ==>
              0 < |nodes[order[k]].forward| && nodes[order[k]].forward[0] == Target(order, k + 1)
  {
    LinkStep(nodes, maxLevel, currentLevel, order, levels, elems, -1, 0);
    forall k | 0 <= k < |order|
      ensures 0 < |nodes[order[k]].forward| && nodes[order[k]].forward[0] == Target(order, k + 1)
    {
      LinkStep(nodes, maxLevel, currentLevel, order, levels, elems, k, 0);
    }
  }

  /** A slot write at level `i` leaves the shape and every other level's chain as
      they were, and keeps `NullAbove` when it writes a linked slot. */
  lemma SlotFrame(n1: seq<Node>, u: nat, i: nat, v: int, order: seq<nat>, levels: seq<nat>)
    requires Shape(n1, order, levels) && u < |n1| && i < |n1[u].forward|
    ensures var n2 := SetSlot(n1, u, i, v);
            Shape(n2, order, levels) &&
            |n2[HEADER].forward| == |n1[HEADER].forward| &&
            (forall k :: 0 <= k < |order| ==> n2[order[k]].value == n1[order[k]].value) &&
            (forall l :: l != i ==>
               (LevelLinked(n2, order, levels, l) <==> LevelLinked(n1, order, levels, l))) &&
            (NullAbove(n1, order, levels) &&
             (forall k :: 0 <= k < |order| && order[k] == u ==> i < levels[k]) ==>
               NullAbove(n2, order, levels))
  {
    var n2 := SetSlot(n1, u, i, v);
    forall l | l != i
      ensures LevelLinked(n2, order, levels, l) <==> LevelLinked(n1, order, levels, l)
    {
      assert forall y :: 0 <= y < |n1| ==>
        |n2[y].forward| == |n1[y].forward| &&
        (forall m :: 0 <= m < |n1[y].forward| && m != i ==> n2[y].forward[m] == n1[y].forward[m]);
    }
  }

  /** After insert's splice at level `i`, the level-`i` slot of a node before the
      insertion point `p` is where `Succ` says; `n3` is the arena after the two
      writes of `SpliceLevel`. */
  lemma SpliceBefore(n1: seq<Node>, n3: seq<Node>, so: seq<nat>, sl: seq<nat>, p: nat, x: nat, l: nat, i: nat, k: nat)
    requires Shape(n1, so, sl) && k < p <= |so| && UniqueAt(so, PrevPos(sl, p, i))
    requires HEADER < x < |n1| && x !in so && i < l && i < sl[k]
    requires LevelLinked(n1, so, sl, i)
    requires var u := NodeAt(so, PrevPos(sl, p, i));
             |n3| == |n1| && i < |n3[u].forward| && n3[u].forward[i] == x &&
             forall y :: 0 <= y < |n1| && y != x && y != u ==> n3[y] == n1[y]
    ensures n3[so[k]].forward[i] == Succ(Ins(so, p, x), Ins(sl, p, l), k, i)
  {
    if k == PrevPos(sl, p, i) {
      SuccInsertReaches(so, sl, p, x, l, i);
    } else {
      assert so[k] != x;
      assert n3[so[k]].forward[i] == n1[so[k]].forward[i] == Succ(so, sl, k, i);
      SuccInsertBefore(so, sl, p, x, l, i, k);
    }
  }

  /** After insert's splice at level `i`, the level-`i` slot of a node from the
      insertion point on (position `k` of the old order) is where `Succ` says. */
  lemma SpliceAfter(n1: seq<Node>, n3: seq<Node>, so: seq<nat>, sl: seq<nat>, p: nat, x: nat, l: nat, i: nat, k: nat)
    requires Shape(n1, so, sl) && p <= k < |so| && UniqueAt(so, PrevPos(sl, p, i))
    requires HEADER < x < |n1| && x !in so && i < sl[k]
    requires LevelLinked(n1, so, sl, i)
    requires var u := NodeAt(so, PrevPos(sl, p, i));
             |n3| == |n1| && forall y :: 0 <= y < |n1| && y != x && y != u ==> n3[y] == n1[y]
    ensures n3[so[k]].forward[i] == Succ(Ins(so, p, x), Ins(sl, p, l), k + 1, i)
  {
    assert so[k] != x;
    assert n3[so[k]].forward[i] == n1[so[k]].forward[i] == Succ(so, sl, k, i);
    SuccInsertAfter(so, sl, p, x, l, i, k);
  }

  /** After insert's splice at level `i`, the header's level-`i` slot is where
      `Succ` says. */
  lemma SpliceHeader(n1: seq<Node>, n3: seq<Node>, so: seq<nat>, sl: seq<nat>, p: nat, x: nat, l: nat, i: nat)
    requires Shape(n1, so, sl) && p <= |so| && UniqueAt(so, PrevPos(sl, p, i))
    requires HEADER < x < |n1| && x !in so && i < l && i < |n1[HEADER].forward|
    requires LevelLinked(n1, so, sl, i)
    requires var u := NodeAt(so, PrevPos(sl, p, i));
             |n3| == |n1| && i < |n3[u].forward| && n3[u].forward[i] == x &&
             forall y :: 0 <= y < |n1| && y != x && y != u ==> n3[y] == n1[y]
    ensures i < |n3[HEADER].forward| &&
            n3[HEADER].forward[i] == Succ(Ins(so, p, x), Ins(sl, p, l), -1, i)
  {
    if PrevPos(sl, p, i) >= 0 {
      SuccInsertBefore(so, sl, p, x, l, i, -1);
    } else {
      SuccInsertReaches(so, sl, p, x, l, i);
    }
  }

  /** After insert's splice at level `i`, the level-`i` slots of the nodes before
      the insertion point are where `Succ` says. */
  lemma SplicePrefix(n1: seq<Node>, n3: seq<Node>, so: seq<nat>, sl: seq<nat>, p: nat, x: nat, l: nat, i: nat)
    requires Shape(n1, so, sl) && p <= |so| && UniqueAt(so, PrevPos(sl, p, i))
    requires HEADER < x < |n1| && x !in so && i < l && i < |n1[HEADER].forward|
    requires LevelLinked(n1, so, sl, i)
    requires var u := NodeAt(so, PrevPos(sl, p, i));
             |n3| == |n1| && i < |n3[u].forward| && n3[u].forward[i] == x &&
             forall y :: 0 <= y < |n1| && y != x && y != u ==> n3[y] == n1[y]
    ensures forall k :: 0 <= k < p && i < sl[k] ==>
              n3[so[k]].forward[i] == Succ(Ins(so, p, x), Ins(sl, p, l), k, i)
  {
    forall k | 0 <= k < p && i < sl[k]
      ensures n3[so[k]].forward[i] == Succ(Ins(so, p, x), Ins(sl, p, l), k, i)
    {
      SpliceBefore(n1, n3, so, sl, p, x, l, i, k);
    }
  }

  /** After insert's splice at level `i`, the level-`i` slots of the nodes from the
      insertion point on are where `Succ` says, one position on. */
  lemma SpliceSuffix(n1: seq<Node>, n3: seq<Node>, so: seq<nat>, sl: seq<nat>, p: nat, x: nat, l: nat, i: nat)
    requires Shape(n1, so, sl) && p <= |so| && UniqueAt(so, PrevPos(sl, p, i))
    requires HEADER < x < |n1| && x !in so && i < l && i < |n1[HEADER].forward|
    requires LevelLinked(n1, so, sl, i)
    requires var u := NodeAt(so, PrevPos(sl, p, i));
             |n3| == |n1| && i < |n3[u].forward| && n3[u].forward[i] == x &&
             forall y :: 0 <= y < |n1| && y != x && y != u ==> n3[y] == n1[y]
    ensures forall k :: p <= k < |so| && i < sl[k] ==>
              n3[so[k]].forward[i] == Succ(Ins(so, p, x), Ins(sl, p, l), k + 1, i)
  {
    forall k | p <= k < |so| && i < sl[k]
      ensures n3[so[k]].forward[i] == Succ(Ins(so, p, x), Ins(sl, p, l), k + 1, i)
    {
      SpliceAfter(n1, n3, so, sl, p, x, l, i, k);
    }
  }

  /** The slots insert's splice at level `i` leaves: with `n3` the arena after its
      two writes, every level-`i` slot of the new order is where `Succ` says. */
  lemma SpliceSlots(n1: seq<Node>, n3: seq<Node>, so: seq<nat>, sl: seq<nat>, p: nat, x: nat, l: nat, i: nat)
    requires Shape(n1, so, sl) && p <= |so| && UniqueAt(so, PrevPos(sl, p, i))
    requires HEADER < x < |n1| && x !in so && i < l && i < |n1[HEADER].forward|
    requires LevelLinked(n1, so, sl, i)
    requires var u := NodeAt(so, PrevPos(sl, p, i));
             |n3| == |n1| && i < |n3[x].forward| && n3[x].forward[i] == n1[u].forward[i] &&
             i < |n3[u].forward| && n3[u].forward[i] == x &&
             forall y :: 0 <= y < |n1| && y != x && y != u ==> n3[y] == n1[y]
    ensures i < |n3[HEADER].forward| &&
            n3[HEADER].forward[i] == Succ(Ins(so, p, x), Ins(sl, p, l), -1, i)
    ensures forall k :: 0 <= k < |so| + 1 && i < Ins(sl, p, l)[k] ==>
              n3[Ins(so, p, x)[k]].forward[i] == Succ(Ins(so, p, x), Ins(sl, p, l), k, i)
  {
    var to, tl := Ins(so, p, x), Ins(sl, p, l);
    SpliceHeader(n1, n3, so, sl, p, x, l, i);
    SplicePrefix(n1, n3, so, sl, p, x, l, i);
    SuccInsertInherits(so, sl, p, x, l, i);
    SpliceSuffix(n1, n3, so, sl, p, x, l, i);
    forall k | 0 <= k < |to| && i < tl[k]
      ensures n3[to[k]].forward[i] == Succ(to, tl, k, i)
    {
      if k < p {
        assert to[k] == so[k] && tl[k] == sl[k];
      } else if k > p {
        assert to[k] == so[k - 1] && tl[k] == sl[k - 1];
      }
    }
  }


  /** One round of insert's splice loop at level `i`:
      `new->forward[i] = update[i]->forward[i]; update[i]->forward[i] = new`, where
      `update[i]` is the predecessor of the insertion point `p` at level `i`, turns
      a correct level-`i` chain of the old order into one of the order with node `x`
      inserted at `p`, linked at `l` levels. */
  lemma SpliceLevel(n1: seq<Node>, so: seq<nat>, sl: seq<nat>, p: nat, x: nat, l: nat, i: nat)
    requires Shape(n1, so, sl) && p <= |so| && UniqueAt(so, PrevPos(sl, p, i))
    requires HEADER < x < |n1| && x !in so && |n1[x].forward| == l
    requires i < l && i < |n1[HEADER].forward|
    requires LevelLinked(n1, so, sl, i)
    ensures Shape(n1, Ins(so, p, x), Ins(sl, p, l))
    ensures var u := NodeAt(so, PrevPos(sl, p, i));
            u < |n1| && i < |n1[u].forward| && u != x &&
            var n2 := SetSlot(n1, x, i, n1[u].forward[i]);
            LevelLinked(SetSlot(n2, u, i, x), Ins(so, p, x), Ins(sl, p, l), i)
  {
    var u := NodeAt(so, PrevPos(sl, p, i));
    assert u < |n1| && i < |n1[u].forward| && u != x;
    var n2 := SetSlot(n1, x, i, n1[u].forward[i]);
    var n3 := SetSlot(n2, u, i, x);
    assert Shape(n1, Ins(so, p, x), Ins(sl, p, l));
    SpliceSlots(n1, n3, so, sl, p, x, l, i);
  }


  /** After erase's unlink at level `i`, the level-`i` slot of a node before the
      erased position `p` is where `Succ` says; `n2` is the arena after the write of
      `UnlinkLevel`. */
  lemma UnlinkBefore(n1: seq<Node>, n2: seq<Node>, to: seq<nat>, tl: seq<nat>, p: nat, i: nat, k: nat)
    requires Shape(n1, to, tl) && k < p < |to| && i < tl[p] && i < tl[k]
    requires UniqueAt(to, PrevPos(tl, p, i))
    requires LevelLinked(n1, to, tl, i)
    requires var u := NodeAt(to, PrevPos(tl, p, i));
             |n2| == |n1| && i < |n2[u].forward| && n2[u].forward[i] == n1[to[p]].forward[i] &&
             forall y :: 0 <= y < |n1| && y != u ==> n2[y] == n1[y]
    ensures n2[to[k]].forward[i] == Succ(Del(to, p), Del(tl, p), k, i)
  {
    var a := PrevPos(tl, p, i);
    if k == a {
      assert n1[to[p]].forward[i] == Succ(to, tl, p, i);
      SuccDeleteBridge(to, tl, p, i);
    } else {
      assert n2[to[k]].forward[i] == n1[to[k]].forward[i] == Succ(to, tl, k, i);
      SuccDeleteBefore(to, tl, p, i, k);
    }
  }

  /** After erase's unlink at level `i`, the level-`i` slot of a node after the
      erased position `p` (position `k` of the old order) is where `Succ` says. */
  lemma UnlinkAfter(n1: seq<Node>, n2: seq<Node>, to: seq<nat>, tl: seq<nat>, p: nat, i: nat, k: nat)
    requires Shape(n1, to, tl) && p < k < |to| && i < tl[k]
    requires UniqueAt(to, PrevPos(tl, p, i))
    requires LevelLinked(n1, to, tl, i)
    requires var u := NodeAt(to, PrevPos(tl, p, i));
             |n2| == |n1| && forall y :: 0 <= y < |n1| && y != u ==> n2[y] == n1[y]
    ensures n2[to[k]].forward[i] == Succ(Del(to, p), Del(tl, p), k - 1, i)
  {
    assert n2[to[k]].forward[i] == n1[to[k]].forward[i] == Succ(to, tl, k, i);
    SuccDeleteAfter(to, tl, p, i, k);
  }

  /** After erase's unlink at level `i`, the header's level-`i` slot is where
      `Succ` says. */
  lemma UnlinkHeader(n1: seq<Node>, n2: seq<Node>, to: seq<nat>, tl: seq<nat>, p: nat, i: nat)
    requires Shape(n1, to, tl) && p < |to| && i < tl[p] && i < |n1[HEADER].forward|
    requires UniqueAt(to, PrevPos(tl, p, i))
    requires LevelLinked(n1, to, tl, i)
    requires var u := NodeAt(to, PrevPos(tl, p, i));
             |n2| == |n1| && i < |n2[u].forward| && n2[u].forward[i] == n1[to[p]].forward[i] &&
             forall y :: 0 <= y < |n1| && y != u ==> n2[y] == n1[y]
    ensures i < |n2[HEADER].forward| &&
            n2[HEADER].forward[i] == Succ(Del(to, p), Del(tl, p), -1, i)
  {
    if PrevPos(tl, p, i) >= 0 {
      SuccDeleteBefore(to, tl, p, i, -1);
    } else {
      assert n1[to[p]].forward[i] == Succ(to, tl, p, i);
      SuccDeleteBridge(to, tl, p, i);
    }
  }

  /** After erase's unlink at level `i`, the level-`i` slots of the nodes before
      the erased one are where `Succ` says. */
  lemma UnlinkPrefix(n1: seq<Node>, n2: seq<Node>, to: seq<nat>, tl: seq<nat>, p: nat, i: nat)
    requires Shape(n1, to, tl) && p < |to| && i < tl[p] && i < |n1[HEADER].forward|
    requires UniqueAt(to, PrevPos(tl, p, i))
    requires LevelLinked(n1, to, tl, i)
    requires var u := NodeAt(to, PrevPos(tl, p, i));
             |n2| == |n1| && i < |n2[u].forward| && n2[u].forward[i] == n1[to[p]].forward[i] &&
             forall y :: 0 <= y < |n1| && y != u ==> n2[y] == n1[y]
    ensures forall k :: 0 <= k < p && i < tl[k] ==>
              n2[to[k]].forward[i] == Succ(Del(to, p), Del(tl, p), k, i)
  {
    forall k | 0 <= k < p && i < tl[k]
      ensures n2[to[k]].forward[i] == Succ(Del(to, p), Del(tl, p), k, i)
    {
      UnlinkBefore(n1, n2, to, tl, p, i, k);
    }
  }

  /** After erase's unlink at level `i`, the level-`i` slots of the nodes after
      the erased one are where `Succ` says, one position back. */
  lemma UnlinkSuffix(n1: seq<Node>, n2: seq<Node>, to: seq<nat>, tl: seq<nat>, p: nat, i: nat)
    requires Shape(n1, to, tl) && p < |to| && i < tl[p] && i < |n1[HEADER].forward|
    requires UniqueAt(to, PrevPos(tl, p, i))
    requires LevelLinked(n1, to, tl, i)
    requires var u := NodeAt(to, PrevPos(tl, p, i));
             |n2| == |n1| && i < |n2[u].forward| && n2[u].forward[i] == n1[to[p]].forward[i] &&
             forall y :: 0 <= y < |n1| && y != u ==> n2[y] == n1[y]
    ensures forall k :: p < k < |to| && i < tl[k] ==>
              n2[to[k]].forward[i] == Succ(Del(to, p), Del(tl, p), k - 1, i)
  {
    forall k | p < k < |to| && i < tl[k]
      ensures n2[to[k]].forward[i] == Succ(Del(to, p), Del(tl, p), k - 1, i)
    {
      UnlinkAfter(n1, n2, to, tl, p, i, k);
    }
  }

  /** The slots erase's unlink at level `i` leaves: with `n2` the arena after its
      write, every level-`i` slot of the shortened order is where `Succ` says. */
  lemma UnlinkSlots(n1: seq<Node>, n2: seq<Node>, to: seq<nat>, tl: seq<nat>, p: nat, i: nat)
    requires Shape(n1, to, tl) && p < |to| && i < tl[p] && i < |n1[HEADER].forward|
    requires UniqueAt(to, PrevPos(tl, p, i))
    requires LevelLinked(n1, to, tl, i)
    requires var u := NodeAt(to, PrevPos(tl, p, i));
             |n2| == |n1| && i < |n2[u].forward| && n2[u].forward[i] == n1[to[p]].forward[i] &&
             forall y :: 0 <= y < |n1| && y != u ==> n2[y] == n1[y]
    ensures i < |n2[HEADER].forward| &&
            n2[HEADER].forward[i] == Succ(Del(to, p), Del(tl, p), -1, i)
    ensures forall k :: 0 <= k < |to| - 1 && i < Del(tl, p)[k] ==>
              n2[Del(to, p)[k]].forward[i] == Succ(Del(to, p), Del(tl, p), k, i)
  {
    var so, sl := Del(to, p), Del(tl, p);
    UnlinkHeader(n1, n2, to, tl, p, i);
    UnlinkPrefix(n1, n2, to, tl, p, i);
    UnlinkSuffix(n1, n2, to, tl, p, i);
    forall k | 0 <= k < |so| && i < sl[k]
      ensures n2[so[k]].forward[i] == Succ(so, sl, k, i)
    {
      if k < p {
        assert so[k] == to[k] && sl[k] == tl[k];
      } else {
        assert so[k] == to[k + 1] && sl[k] == tl[k + 1];
      }
    }
  }

  /** One round of erase's unlink loop at level `i`:
      `update[i]->forward[i] = node->forward[i]`, where the erased node sits at
      position `p` of `to` and is linked at level `i`, and `update[i]` is its
      predecessor at level `i`, turns a correct level-`i` chain into one of the
      order without that node. */
  lemma UnlinkLevel(n1: seq<Node>, to: seq<nat>, tl: seq<nat>, p: nat, i: nat)
    requires Shape(n1, to, tl) && p < |to| && i < tl[p] && i < |n1[HEADER].forward|
    requires UniqueAt(to, PrevPos(tl, p, i))
    requires LevelLinked(n1, to, tl, i)
    ensures Shape(n1, Del(to, p), Del(tl, p))
    ensures var u := NodeAt(to, PrevPos(tl, p, i));
            u < |n1| && i < |n1[u].forward| && i < |n1[to[p]].forward| &&
            LevelLinked(SetSlot(n1, u, i, n1[to[p]].forward[i]), Del(to, p), Del(tl, p), i)
  {
    var u := NodeAt(to, PrevPos(tl, p, i));
    assert u < |n1| && i < |n1[u].forward| && i < |n1[to[p]].forward|;
    var n2 := SetSlot(n1, u, i, n1[to[p]].forward[i]);
    assert Shape(n1, Del(to, p), Del(tl, p));
    UnlinkSlots(n1, n2, to, tl, p, i);
  }


  /** A node linked at `h` levels takes no part in the chains of levels `i >= h`:
      inserting it leaves those chains correct. */
  lemma LevelAboveInsert(nodes: seq<Node>, so: seq<nat>, sl: seq<nat>, p: nat, x: nat, h: nat, i: nat)
    requires p <= |so| && h <= i
    requires Shape(nodes, so, sl) && Shape(nodes, Ins(so, p, x), Ins(sl, p, h))
    requires LevelLinked(nodes, so, sl, i)
    ensures LevelLinked(nodes, Ins(so, p, x), Ins(sl, p, h), i)
  {
    var to, tl := Ins(so, p, x), Ins(sl, p, h);
    SuccInsertBefore(so, sl, p, x, h, i, -1);
    forall k | 0 <= k < |to| && i < tl[k]
      ensures nodes[to[k]].forward[i] == Succ(to, tl, k, i)
    {
      if k < p {
        SuccInsertBefore(so, sl, p, x, h, i, k);
      } else {
        SuccInsertAfter(so, sl, p, x, h, i, k - 1);
      }
    }
  }

  /** Removing a node linked at `tl[p] <= i` levels leaves the chains of level `i`
      correct. */
  lemma LevelAboveErase(nodes: seq<Node>, to: seq<nat>, tl: seq<nat>, p: nat, i: nat)
    requires Shape(nodes, to, tl) && p < |to| && tl[p] <= i
    requires LevelLinked(nodes, to, tl, i)
    ensures Shape(nodes, Del(to, p), Del(tl, p))
    ensures LevelLinked(nodes, Del(to, p), Del(tl, p), i)
  {
    var so, sl := Del(to, p), Del(tl, p);
    SuccDeleteBefore(to, tl, p, i, -1);
    forall k | 0 <= k < |so| && i < sl[k]
      ensures nodes[so[k]].forward[i] == Succ(so, sl, k, i)
    {
      if k < p {
        SuccDeleteBefore(to, tl, p, i, k);
      } else {
        SuccDeleteAfter(to, tl, p, i, k + 1);
      }
    }
  }

  /** The inner loop of the search descent at level `i`: from `start`, the node at
      a position `pos0` on level `i` before the boundary `p` of `key`, follow the
      level-`i` links while the next node's value precedes `key` (`<`, or `<=` when
      `inclusive`). It stops at the predecessor of `p` at level `i`. */
  method Advance(nodes: seq<Node>, maxLevel: nat, currentLevel: nat, key: int, inclusive: bool,
                 i: nat, start: nat, ghost order: seq<nat>, ghost levels: seq<nat>,
                 ghost elems: seq<int>, ghost pos0: int)
    returns (current: nat)
    requires Linked(nodes, maxLevel, currentLevel, order, levels, elems) && i < maxLevel
    requires -1 <= pos0 < Boundary(elems, key, inclusive) && OnLevel(levels, pos0, i)
    requires start == NodeAt(order, pos0)
    ensures current == NodeAt(order, PrevPos(levels, Boundary(elems, key, inclusive), i))
  {
    ghost var p := Boundary(elems, key, inclusive);
    current := start;
    ghost var pos := pos0;
    LinkStep(nodes, maxLevel, currentLevel, order, levels, elems, pos, i);
    while nodes[current].forward[i] != NIL &&
          Precedes(nodes[nodes[current].forward[i]].value, key, inclusive)
      invariant -1 <= pos < p && current == NodeAt(order, pos) && OnLevel(levels, pos, i)
      invariant i < |nodes[current].forward|
      invariant nodes[current].forward[i] == Target(order, NextPos(levels, pos, i))
      decreases p - pos
    {
      ghost var q := NextPos(levels, pos, i);
      LinkStep(nodes, maxLevel, currentLevel, order, levels, elems, pos, i);
      BoundarySplits(elems, key, inclusive, q);
      current := nodes[current].forward[i];
      pos := q;
      LinkStep(nodes, maxLevel, currentLevel, order, levels, elems, pos, i);
    }
    ghost var q := NextPos(levels, pos, i);
    LinkStep(nodes, maxLevel, currentLevel, order, levels, elems, pos, i);
    if q < |order| {
      BoundarySplits(elems, key, inclusive, q);
    }
    PrevPosIs(levels, p, i, pos);
  }

  /** Where the descent ends: having left level 0 at the predecessor of `p` (or
      never left the header when no level is in use), it stands at position
      `p - 1`, whose level-0 link leads to position `p`. */
  lemma DescentEnds(nodes: seq<Node>, maxLevel: nat, currentLevel: nat,
                    order: seq<nat>, levels: seq<nat>, elems: seq<int>, p: nat, pos: int)
    requires Linked(nodes, maxLevel, currentLevel, order, levels, elems) && p <= |order|
    requires currentLevel == 0 ==> pos == -1
    requires 0 < currentLevel ==> pos == PrevPos(levels, p, 0)
    ensures pos == p - 1
    ensures 0 < |nodes[NodeAt(order, pos)].forward| &&
            nodes[NodeAt(order, pos)].forward[0] == Target(order, p)
  {
    if 0 < p {
      assert levels[p - 1] > 0;
    }
    LinkStep(nodes, maxLevel, currentLevel, order, levels, elems, pos, 0);
  }

  /** The search descent shared by find, insert, erase, lower_bound, upper_bound and
      the copy constructor: from the header, for each level from `currentLevel - 1`
      down to 0, advance while the next node's value precedes `key` (`<`, or `<=`
      when `inclusive`), and record in `update[i]` the node reached at level `i`.
      It ends at the last node that precedes `key`; its level-0 successor is the
      first node that does not. */
  method Descend(nodes: seq<Node>, maxLevel: nat, currentLevel: nat, key: int, inclusive: bool,
                 ghost order: seq<nat>, ghost levels: seq<nat>, ghost elems: seq<int>)
    returns (current: nat, update: seq<int>)
    requires Linked(nodes, maxLevel, currentLevel, order, levels, elems)
    ensures var p := Boundary(elems, key, inclusive);
            current == NodeAt(order, p - 1) &&
            0 < |nodes[current].forward| && nodes[current].forward[0] == Target(order, p)
    ensures |update| == maxLevel
    ensures forall i :: 0 <= i < currentLevel ==>
              update[i] == NodeAt(order, PrevPos(levels, Boundary(elems, key, inclusive), i))
    ensures forall i :: currentLevel <= i < maxLevel ==> update[i] == NIL
  {
    ghost var p := Boundary(elems, key, inclusive);
    update := Nulls(maxLevel);
    current := HEADER;
    ghost var pos := -1;
    var i: int := currentLevel - 1;
    while i >= 0
      invariant -1 <= i < currentLevel
      invariant i + 1 == currentLevel ==> pos == -1
      invariant i + 1 < currentLevel ==> pos == PrevPos(levels, p, i + 1)
      invariant current == NodeAt(order, pos)
      invariant |update| == maxLevel
      invariant forall l :: i < l < currentLevel ==> update[l] == NodeAt(order, PrevPos(levels, p, l))
      invariant forall l :: currentLevel <= l < maxLevel ==> update[l] == NIL
    {
      current := Advance(nodes, maxLevel, currentLevel, key, inclusive, i, current,
                         order, levels, elems, pos);
      pos := PrevPos(levels, p, i);
      update := update[i := current];
      i := i - 1;
    }
    DescentEnds(nodes, maxLevel, currentLevel, order, levels, elems, p, pos);
  }
}

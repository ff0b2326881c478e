/** The structural updates of insert, erase and the copy constructor, one loop round
    at a time: the state between two rounds is described by a predicate, and each
    lemma takes one round from one such state to the next. */
module Updates {

  import opened Seqs
  import opened SortedSeq
  import opened Levels
  import opened Chains
  import opened Arena

  /** Every position of `order`, and the header, holds a node that occurs once. */
  ghost predicate AllUnique(order: seq<nat>) {
    forall a :: -1 <= a < |order| ==> UniqueAt(order, a)
  }

  /** Element `k` of `order` holds value `elems[k]`. */
  ghost predicate ValuesAre(nodes: seq<Node>, order: seq<nat>, elems: seq<int>)
    requires forall k :: 0 <= k < |order| ==> order[k] < |nodes|
  {
    |elems| == |order| && forall k :: 0 <= k < |order| ==> nodes[order[k]].value == elems[k]
  }

  // ---------------------------------------------------------------- insert

  /** The state of insert's splice loop before round `i`: node `x`, with `h` slots,
      is being inserted at position `p` of the old order `so` (counts `sl`); the
      chains of levels below `i` already follow the new order, those from `i` on
      still follow the old one, and the new node's slots from `i` on are null. */
  ghost predicate Splicing(nodes: seq<Node>, maxLevel: nat, so: seq<nat>, sl: seq<nat>, te: seq<int>,
                           p: nat, x: nat, h: nat, i: nat)
  {
    Shape(nodes, so, sl) && p <= |so| && HEADER < x < |nodes| && x !in so &&
    |nodes[x].forward| == h && i <= h <= maxLevel && |nodes[HEADER].forward| == maxLevel &&
    AllUnique(so) &&
    Shape(nodes, Ins(so, p, x), Ins(sl, p, h)) &&
    ValuesAre(nodes, Ins(so, p, x), te) &&
    (forall l :: i <= l < h ==> nodes[x].forward[l] == NIL) &&
    (forall l :: 0 <= l < i ==> LevelLinked(nodes, Ins(so, p, x), Ins(sl, p, h), l)) &&
    (forall l :: i <= l < maxLevel ==> LevelLinked(nodes, so, sl, l)) &&
    NullAbove(nodes, Ins(so, p, x), Ins(sl, p, h))
  }

  /** Appending a node to the arena leaves a correct list correct. */
  lemma AppendKeeps(n0: seq<Node>, maxLevel: nat, currentLevel: nat,
                    so: seq<nat>, sl: seq<nat>, se: seq<int>, node: Node)
    requires Linked(n0, maxLevel, currentLevel, so, sl, se)
    ensures Linked(n0 + [node], maxLevel, currentLevel, so, sl, se)
  {
    var n1 := n0 + [node];
    assert forall y :: 0 <= y < |n0| ==> n1[y] == n0[y];
    assert Shape(n1, so, sl);
    forall l | 0 <= l < maxLevel ensures LevelLinked(n1, so, sl, l) {
      assert LevelLinked(n0, so, sl, l);
    }
  }

  /** The new node `x`, with value `v` and `h` null slots, placed at position `p`:
      the shape, values and null slots of the extended order. */
  lemma InsertShape(n1: seq<Node>, so: seq<nat>, sl: seq<nat>, se: seq<int>, p: nat, x: nat, v: int, h: nat)
    requires Shape(n1, so, sl) && NullAbove(n1, so, sl) && ValuesAre(n1, so, se) && p <= |so|
    requires HEADER < x < |n1| && n1[x] == Node(v, Nulls(h))
    ensures Shape(n1, Ins(so, p, x), Ins(sl, p, h))
    ensures ValuesAre(n1, Ins(so, p, x), Ins(se, p, v))
    ensures NullAbove(n1, Ins(so, p, x), Ins(sl, p, h))
  {
    var to, tl, te := Ins(so, p, x), Ins(sl, p, h), Ins(se, p, v);
    forall k | 0 <= k < |to| && k != p
      ensures to[k] == so[if k < p then k else k - 1] && tl[k] == sl[if k < p then k else k - 1]
    { }
  }

  /** Appending the new node, with all its `h` slots null, to an arena holding a
      correct list starts the splice loop. */
  lemma SpliceStart(n0: seq<Node>, maxLevel: nat, currentLevel: nat,
                    so: seq<nat>, sl: seq<nat>, se: seq<int>, v: int, h: nat)
    requires Linked(n0, maxLevel, currentLevel, so, sl, se)
    requires v !in se && 1 <= h <= maxLevel
    ensures var p := Boundary(se, v, false);
            var x := |n0|;
            Splicing(n0 + [Node(v, Nulls(h))], maxLevel, so, sl, Ins(se, p, v), p, x, h, 0)
  {
    var p := Boundary(se, v, false);
    var n1 := n0 + [Node(v, Nulls(h))];
    forall a | -1 <= a < |so| ensures UniqueAt(so, a) {
      LinkedUniqueAt(n0, maxLevel, currentLevel, so, sl, se, a);
    }
    AppendKeeps(n0, maxLevel, currentLevel, so, sl, se, Node(v, Nulls(h)));
    InsertShape(n1, so, sl, se, p, |n0|, v, h);
  }

  /** Where nodes sit after inserting `x` at `p`: `x` only at `p`, and the node at
      a position `a` before `p` still only at `a`. */
  lemma InsOwners(so: seq<nat>, p: nat, x: nat, a: int)
    requires p <= |so| && AllUnique(so) && x !in so && -1 <= a < p && HEADER < x
    requires forall k :: 0 <= k < |so| ==> HEADER < so[k]
    ensures forall k :: 0 <= k < |so| + 1 && Ins(so, p, x)[k] == x ==> k == p
    ensures forall k :: 0 <= k < |so| + 1 && Ins(so, p, x)[k] == NodeAt(so, a) ==> k == a
  {
    var to := Ins(so, p, x);
    assert UniqueAt(so, a);
    forall k | 0 <= k < |to| && k < p ensures to[k] == so[k] { }
    forall k | p < k < |to| ensures to[k] == so[k - 1] && so[k - 1] in so { }
  }

  /** One round of the splice loop: linking the new node into level `i` behind
      `update[i]`, the level-`i` predecessor of `p`. */
  lemma SpliceStep(n1: seq<Node>, maxLevel: nat, so: seq<nat>, sl: seq<nat>, te: seq<int>,
                   p: nat, x: nat, h: nat, i: nat)
    requires Splicing(n1, maxLevel, so, sl, te, p, x, h, i) && i < h
    ensures var u := NodeAt(so, PrevPos(sl, p, i));
            u < |n1| && i < |n1[u].forward| && u != x &&
            var n2 := SetSlot(n1, x, i, n1[u].forward[i]);
            Splicing(SetSlot(n2, u, i, x), maxLevel, so, sl, te, p, x, h, i + 1)
  {
    var to, tl := Ins(so, p, x), Ins(sl, p, h);
    var a := PrevPos(sl, p, i);
    var u := NodeAt(so, a);
    SpliceLevel(n1, so, sl, p, x, h, i);
    var n2 := SetSlot(n1, x, i, n1[u].forward[i]);
    var n3 := SetSlot(n2, u, i, x);
    SlotFrame(n1, x, i, n1[u].forward[i], so, sl);
    SlotFrame(n1, x, i, n1[u].forward[i], to, tl);
    SlotFrame(n2, u, i, x, so, sl);
    SlotFrame(n2, u, i, x, to, tl);
    InsOwners(so, p, x, a);
  }

  /** When the splice loop has linked all `h` levels, the arena holds a correct list
      of the new order, with `currentLevel` raised to `h` if it was lower. */
  lemma SpliceDone(n: seq<Node>, maxLevel: nat, currentLevel: nat,
                   so: seq<nat>, sl: seq<nat>, te: seq<int>, p: nat, x: nat, h: nat)
    requires Splicing(n, maxLevel, so, sl, te, p, x, h, h)
    requires 1 <= h && currentLevel <= maxLevel && forall k :: 0 <= k < |sl| ==> 1 <= sl[k] <= currentLevel
    requires Increasing(te)
    ensures Linked(n, maxLevel, Max(currentLevel, h), Ins(so, p, x), Ins(sl, p, h), te)
  {
    var to, tl := Ins(so, p, x), Ins(sl, p, h);
    forall l | h <= l < maxLevel ensures LevelLinked(n, to, tl, l) {
      LevelAboveInsert(n, so, sl, p, x, h, l);
    }
    forall k | 0 <= k < |to| ensures 1 <= tl[k] <= Max(currentLevel, h) {
      if k < p { assert tl[k] == sl[k]; } else if k > p { assert tl[k] == sl[k - 1]; }
    }
  }

  // ---------------------------------------------------------------- erase

  /** The state of erase's unlink loop before round `i`: the node at position `p` of
      `to` (counts `tl`) is being removed; the chains of levels below `i` no longer
      reach it, those from `i` on are as before. */
  ghost predicate Unlinking(nodes: seq<Node>, maxLevel: nat, to: seq<nat>, tl: seq<nat>, te: seq<int>,
                            p: nat, i: nat)
  {
    Shape(nodes, to, tl) && p < |to| && i <= tl[p] && |nodes[HEADER].forward| == maxLevel &&
    AllUnique(to) && |te| == |to| &&
    Shape(nodes, Del(to, p), Del(tl, p)) &&
    ValuesAre(nodes, Del(to, p), Del(te, p)) &&
    (forall l :: 0 <= l < i ==> LevelLinked(nodes, Del(to, p), Del(tl, p), l)) &&
    (forall l :: i <= l < maxLevel ==> LevelLinked(nodes, to, tl, l)) &&
    NullAbove(nodes, Del(to, p), Del(tl, p))
  }

  /** A correct list in which the element at `p` is found starts the unlink loop. */
  lemma UnlinkStart(n: seq<Node>, maxLevel: nat, currentLevel: nat,
                    to: seq<nat>, tl: seq<nat>, te: seq<int>, p: nat)
    requires Linked(n, maxLevel, currentLevel, to, tl, te) && p < |to|
    ensures Unlinking(n, maxLevel, to, tl, te, p, 0)
  {
    var so, sl, se := Del(to, p), Del(tl, p), Del(te, p);
    forall a | -1 <= a < |to| ensures UniqueAt(to, a) {
      LinkedUniqueAt(n, maxLevel, currentLevel, to, tl, te, a);
    }
    assert Shape(n, so, sl) by {
      forall k | 0 <= k < |so| ensures HEADER < so[k] < |n| && sl[k] <= |n[so[k]].forward| {
        if k < p { assert so[k] == to[k]; } else { assert so[k] == to[k + 1]; }
      }
    }
    forall k | 0 <= k < |so| ensures n[so[k]].value == se[k] {
      if k < p { assert so[k] == to[k]; } else { assert so[k] == to[k + 1]; }
    }
    forall k, l | 0 <= k < |so| && sl[k] <= l < |n[so[k]].forward| ensures n[so[k]].forward[l] == NIL {
      if k < p { assert so[k] == to[k]; } else { assert so[k] == to[k + 1]; }
    }
  }

  /** The test of erase's unlink loop at level `i`: `update[i]`, the level-`i`
      predecessor of `p`, points at the erased node exactly when that node is
      linked at level `i`. */
  lemma UnlinkCheck(n: seq<Node>, maxLevel: nat, to: seq<nat>, tl: seq<nat>, te: seq<int>, p: nat, i: nat)
    requires Unlinking(n, maxLevel, to, tl, te, p, i) && i < maxLevel
    ensures var u := NodeAt(to, PrevPos(tl, p, i));
            u < |n| && i < |n[u].forward| && (n[u].forward[i] == to[p] <==> i < tl[p])
  {
    var a := PrevPos(tl, p, i);
    var q := NextPos(tl, a, i);
    assert LevelLinked(n, to, tl, i);
    PrevPosReaches(tl, p, i);
    assert n[NodeAt(to, a)].forward[i] == Target(to, q);
    if q < |to| && to[q] == to[p] {
      assert UniqueAt(to, p);
    }
  }

  /** Where nodes sit after removing position `p`: the node at a position `a`
      before `p` still only at `a`. */
  lemma DelOwners(to: seq<nat>, p: nat, a: int)
    requires p < |to| && AllUnique(to) && -1 <= a < p
    requires forall k :: 0 <= k < |to| ==> HEADER < to[k]
    ensures forall k :: 0 <= k < |to| - 1 && Del(to, p)[k] == NodeAt(to, a) ==> k == a
  {
    var so := Del(to, p);
    assert UniqueAt(to, a);
    forall k | 0 <= k < |so| && k < p ensures so[k] == to[k] { }
    forall k | p <= k < |so| ensures so[k] == to[k + 1] { }
  }

  /** One round of the unlink loop: `update[i]->forward[i] = node->forward[i]`. */
  lemma UnlinkStep(n1: seq<Node>, maxLevel: nat, to: seq<nat>, tl: seq<nat>, te: seq<int>, p: nat, i: nat)
    requires Unlinking(n1, maxLevel, to, tl, te, p, i) && i < tl[p] && i < maxLevel
    ensures var u := NodeAt(to, PrevPos(tl, p, i));
            u < |n1| && i < |n1[u].forward| && i < |n1[to[p]].forward| &&
            Unlinking(SetSlot(n1, u, i, n1[to[p]].forward[i]), maxLevel, to, tl, te, p, i + 1)
  {
    var so, sl := Del(to, p), Del(tl, p);
    var a := PrevPos(tl, p, i);
    var u := NodeAt(to, a);
    UnlinkLevel(n1, to, tl, p, i);
    var v := n1[to[p]].forward[i];
    SlotFrame(n1, u, i, v, to, tl);
    SlotFrame(n1, u, i, v, so, sl);
    DelOwners(to, p, a);
  }

  /** When the unlink loop stops at the erased node's level count, the arena holds a
      correct list of the order without it. */
  lemma UnlinkDone(n: seq<Node>, maxLevel: nat, currentLevel: nat,
                   to: seq<nat>, tl: seq<nat>, te: seq<int>, p: nat)
    requires p < |tl| && Unlinking(n, maxLevel, to, tl, te, p, tl[p])
    requires 1 <= maxLevel && currentLevel <= maxLevel && Increasing(te)
    requires forall k :: 0 <= k < |tl| ==> 1 <= tl[k] <= currentLevel
    ensures Linked(n, maxLevel, currentLevel, Del(to, p), Del(tl, p), Del(te, p))
  {
    var so, sl, se := Del(to, p), Del(tl, p), Del(te, p);
    forall l | tl[p] <= l < maxLevel ensures LevelLinked(n, so, sl, l) {
      LevelAboveErase(n, to, tl, p, l);
    }
    forall j, k | 0 <= j < k < |se| ensures se[j] < se[k] {
      if j >= p { assert se[j] == te[j + 1] && se[k] == te[k + 1]; }
      else if k >= p { assert se[k] == te[k + 1]; }
    }
    forall k | 0 <= k < |sl| ensures 1 <= sl[k] <= currentLevel {
      if k < p { assert sl[k] == tl[k]; } else { assert sl[k] == tl[k + 1]; }
    }
  }

  /** One round of erase's trim: a null header slot at the top level in use means the
      level is empty, and lowering `currentLevel` past it keeps the list correct. */
  lemma TrimStep(n: seq<Node>, maxLevel: nat, currentLevel: nat,
                 order: seq<nat>, levels: seq<nat>, elems: seq<int>)
    requires Linked(n, maxLevel, currentLevel, order, levels, elems) && 0 < currentLevel
    requires n[HEADER].forward[currentLevel - 1] == NIL
    ensures Linked(n, maxLevel, currentLevel - 1, order, levels, elems)
  {
    HeaderNullEmpty(n, maxLevel, currentLevel, order, levels, elems, currentLevel - 1);
  }

  // ---------------------------------------------------------------- copy

  /** The node positions of a list whose elements are linked at level 0 only. */
  ghost predicate LevelZeroOnly(levels: seq<nat>) {
    forall k :: 0 <= k < |levels| ==> levels[k] == 1
  }

  /** The level-`i` slot of element `k` of a correct list: its level-`i` successor
      when it is linked at `i`, null above. */
  lemma SlotOf(n: seq<Node>, maxLevel: nat, currentLevel: nat,
               order: seq<nat>, levels: seq<nat>, elems: seq<int>, k: nat, i: nat)
    requires Linked(n, maxLevel, currentLevel, order, levels, elems)
    requires k < |order| && i < |n[order[k]].forward|
    ensures n[order[k]].forward[i] == if i < levels[k] then Target(order, NextPos(levels, k, i)) else NIL
    ensures i < levels[k] && NextPos(levels, k, i) < |order| ==>
              n[order[NextPos(levels, k, i)]].value == elems[NextPos(levels, k, i)]
  {
    if i < levels[k] {
      LinkStep(n, maxLevel, currentLevel, order, levels, elems, k, i);
    }
  }

  /** In a list linked at level 0 only, the level-0 chain visits every element in
      order. */
  lemma ZeroChain(n: seq<Node>, order: seq<nat>, levels: seq<nat>)
    requires Shape(n, order, levels) && LevelZeroOnly(levels) && 0 < |n[HEADER].forward|
    ensures LevelLinked(n, order, levels, 0) <==>
              n[HEADER].forward[0] == Target(order, 0) &&
              forall k {:trigger n[order[k]].forward[0]} :: 0 <= k < |order| ==>
                n[order[k]].forward[0] == Target(order, k + 1)
  {
    forall k | -1 <= k < |order| ensures NextPos(levels, k, 0) == k + 1 { }
  }

  /** In a list linked at level 0 only, the chain of a level `l >= 1` is empty. */
  lemma HighChain(n: seq<Node>, order: seq<nat>, levels: seq<nat>, l: nat)
    requires Shape(n, order, levels) && LevelZeroOnly(levels) && 1 <= l < |n[HEADER].forward|
    ensures LevelLinked(n, order, levels, l) <==> n[HEADER].forward[l] == NIL
  {
    NextPosNone(levels, -1, l);
  }

  /** A list linked at level 0 only, described link by link: the header and each
      element point at the next element on level 0, and every other slot is null.
      This is what the copy constructor builds. */
  ghost predicate ZeroLinked(n: seq<Node>, maxLevel: nat, order: seq<nat>, elems: seq<int>) {
    HEADER < |n| && 1 <= maxLevel && |n[HEADER].forward| == maxLevel &&
    |elems| == |order| && Increasing(elems) &&
    (forall k :: 0 <= k < |order| ==>
       HEADER < order[k] < |n| && 1 <= |n[order[k]].forward| && n[order[k]].value == elems[k]) &&
    n[HEADER].forward[0] == Target(order, 0) &&
    (forall l :: 1 <= l < maxLevel ==> n[HEADER].forward[l] == NIL) &&
    (forall k {:trigger n[order[k]].forward[0]} :: 0 <= k < |order| ==>
       n[order[k]].forward[0] == Target(order, k + 1)) &&
    (forall k, l :: 0 <= k < |order| && 1 <= l < |n[order[k]].forward| ==> n[order[k]].forward[l] == NIL)
  }

  /** A list linked at level 0 only is a correct skip list whose elements are each
      linked at one level, for any `currentLevel` that is at least 1 once the list
      has elements. */
  lemma ZeroLinkedIsLinked(n: seq<Node>, maxLevel: nat, currentLevel: nat,
                           order: seq<nat>, levels: seq<nat>, elems: seq<int>)
    requires ZeroLinked(n, maxLevel, order, elems) && currentLevel <= maxLevel
    requires |levels| == |order| && LevelZeroOnly(levels) && (0 < |order| ==> 1 <= currentLevel)
    ensures Linked(n, maxLevel, currentLevel, order, levels, elems)
  {
    assert Shape(n, order, levels);
    ZeroChain(n, order, levels);
    forall l | 1 <= l < maxLevel ensures LevelLinked(n, order, levels, l) {
      HighChain(n, order, levels, l);
    }
  }

  /** One round of the copy constructor: the new node, with value `v` above every
      value copied so far and all its slots null, is appended at the end of level 0
      (`prev->forward[0] = new_node`). The copies occupy arena indices 1, 2, ... in
      order, so the last one is at index `|order|`. */
  lemma CopyAppend(n: seq<Node>, maxLevel: nat, order: seq<nat>, elems: seq<int>, v: int, fwd: seq<int>)
    requires ZeroLinked(n, maxLevel, order, elems)
    requires |n| == |order| + 1 && forall k :: 0 <= k < |order| ==> order[k] == k + 1
    requires 1 <= |fwd| && forall j :: 0 <= j < |fwd| ==> fwd[j] == NIL
    requires forall k :: 0 <= k < |elems| ==> elems[k] < v
    ensures NodeAt(order, |order| - 1) == |order|
    ensures var n1 := n + [Node(v, fwd)];
            0 < |n1[|order|].forward| &&
            ZeroLinked(SetSlot(n1, |order|, 0, |n|), maxLevel, order + [|n|], elems + [v])
  {
    var n1 := n + [Node(v, fwd)];
    assert forall y :: 0 <= y < |n| ==> n1[y] == n[y];
    if 0 < |order| {
      assert order[|order| - 1] == |order|;
    }
    assert 0 < |n1[|order|].forward|;
    var n2 := SetSlot(n1, |order|, 0, |n|);
    CopyAppendFrame(n, n2, maxLevel, order, elems, v, fwd);
  }

  /** `CopyAppend` over any arena `n2` that differs from `n` exactly by the new
      node and the updated last slot. */
  lemma CopyAppendFrame(n: seq<Node>, n2: seq<Node>, maxLevel: nat, order: seq<nat>, elems: seq<int>,
                        v: int, fwd: seq<int>)
    requires ZeroLinked(n, maxLevel, order, elems)
    requires |n| == |order| + 1 && forall k :: 0 <= k < |order| ==> order[k] == k + 1
    requires 1 <= |fwd| && forall j :: 0 <= j < |fwd| ==> fwd[j] == NIL
    requires forall k :: 0 <= k < |elems| ==> elems[k] < v
    requires |n2| == |n| + 1 && n2[|n|] == Node(v, fwd) && 0 < |n[|order|].forward|
    requires n2[|order|] == Node(n[|order|].value, n[|order|].forward[0 := |n|])
    requires forall y :: 0 <= y < |order| ==> n2[y] == n[y]
    ensures ZeroLinked(n2, maxLevel, order + [|n|], elems + [v])
  {
    var to := order + [|n|];
    var te := elems + [v];
    forall k | 0 <= k < |to|
      ensures HEADER < to[k] < |n2| && 1 <= |n2[to[k]].forward| && n2[to[k]].value == te[k]
      ensures forall l :: 1 <= l < |n2[to[k]].forward| ==> n2[to[k]].forward[l] == NIL
    {
      if k < |order| {
        assert to[k] == order[k];
      }
    }
    forall k | 0 <= k < |to| ensures n2[to[k]].forward[0] == Target(to, k + 1) {
      if k < |order| - 1 {
        assert to[k] == order[k] && n2[order[k]] == n[order[k]];
      }
    }
    IncreasingAppend(elems, v);
  }



}

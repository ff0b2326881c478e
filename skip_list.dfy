/** The skip list container: a `maxLevel`, the number of levels in use
    `currentLevel`, the element count, and the arena of nodes whose index
    `HEADER` is the header. The ghost fields record the level-0 order of the
    element nodes, how many levels each is linked at, and their values; `Valid`
    ties them to the links. The loops of insert, erase and the copy constructor
    are separate methods over the arena, each proved against the ghost view. */
module SkipLists {

  import opened Seqs
  import opened SortedSeq
  import opened Levels
  import opened Chains
  import opened Arena
  import opened Updates

  /** The `max_level` of a default-constructed list. */
  const DEFAULT_MAX_LEVEL: nat := 16

  /** Insert's splice loop: for each level `i` below the new node's `h` levels,
      `new_node->forward[i] = update[i]->forward[i]; update[i]->forward[i] = new_node`,
      where `update[i]` is the level-`i` predecessor of the insertion position. */
  method Splice(n0: seq<Node>, maxLevel: nat, update: seq<int>, x: nat, h: nat,
                ghost so: seq<nat>, ghost sl: seq<nat>, ghost te: seq<int>, ghost p: nat)
    returns (n: seq<Node>)
    requires Splicing(n0, maxLevel, so, sl, te, p, x, h, 0) && h <= |update|
    requires forall l :: 0 <= l < h ==> update[l] == NodeAt(so, PrevPos(sl, p, l))
    ensures Splicing(n, maxLevel, so, sl, te, p, x, h, h)
    ensures |n| == |n0| && forall y :: 0 <= y < |n0| ==> |n[y].forward| == |n0[y].forward|
  {
    n := n0;
    var i := 0;
    while i < h
      invariant 0 <= i <= h && Splicing(n, maxLevel, so, sl, te, p, x, h, i)
      invariant |n| == |n0| && forall y :: 0 <= y < |n0| ==> |n[y].forward| == |n0[y].forward|
    {
      SpliceStep(n, maxLevel, so, sl, te, p, x, h, i);
      var u := update[i];
      n := SetSlot(n, x, i, n[u].forward[i]);
      n := SetSlot(n, u, i, x);
      i := i + 1;
    }
  }

  /** Insert's raise of the levels in use: the new levels `currentLevel ..
      newLevel - 1` have no node yet, so their predecessor is the header. Afterwards
      `update` holds the predecessor of position `p` on every level below `newLevel`. */
  method RaiseLevels(update0: seq<int>, maxLevel: nat, currentLevel: nat, newLevel: nat,
                     ghost order: seq<nat>, ghost levels: seq<nat>, ghost p: nat)
    returns (update: seq<int>)
    requires |update0| == maxLevel && currentLevel < newLevel <= maxLevel
    requires |order| == |levels| && p <= |levels|
    requires forall k :: 0 <= k < |levels| ==> levels[k] <= currentLevel
    requires forall l :: 0 <= l < currentLevel ==> update0[l] == NodeAt(order, PrevPos(levels, p, l))
    ensures |update| == maxLevel
    ensures forall l :: 0 <= l < newLevel ==> update[l] == NodeAt(order, PrevPos(levels, p, l))
  {
    update := update0;
    var i := currentLevel;
    while i < newLevel
      invariant currentLevel <= i <= newLevel && |update| == maxLevel
      invariant forall l :: 0 <= l < i ==> update[l] == NodeAt(order, PrevPos(levels, p, l))
    {
      PrevPosNone(levels, p, i);
      update := update[i := HEADER];
      i := i + 1;
    }
  }

  /** Erase's unlink loop: for each level in use, stop at the first level whose
      predecessor `update[i]` does not point at the node being removed; otherwise
      bypass it (`update[i]->forward[i] = current->forward[i]`). The loop stops
      exactly at the number of levels the node is linked at. */
  method Unlink(n0: seq<Node>, maxLevel: nat, currentLevel: nat, update: seq<int>, target: nat,
                ghost to: seq<nat>, ghost tl: seq<nat>, ghost te: seq<int>, ghost p: nat)
    returns (n: seq<Node>)
    requires Unlinking(n0, maxLevel, to, tl, te, p, 0) && target == to[p]
    requires currentLevel <= maxLevel && currentLevel <= |update| && tl[p] <= currentLevel
    requires forall l :: 0 <= l < currentLevel ==> update[l] == NodeAt(to, PrevPos(tl, p, l))
    ensures Unlinking(n, maxLevel, to, tl, te, p, tl[p])
    ensures |n| == |n0| && forall y :: 0 <= y < |n0| ==> |n[y].forward| == |n0[y].forward|
  {
    n := n0;
    var i := 0;
    while i < currentLevel
      invariant 0 <= i <= tl[p] && Unlinking(n, maxLevel, to, tl, te, p, i)
      invariant |n| == |n0| && forall y :: 0 <= y < |n0| ==> |n[y].forward| == |n0[y].forward|
    {
      UnlinkCheck(n, maxLevel, to, tl, te, p, i);
      var u := update[i];
      if n[u].forward[i] != target {
        break;
      }
      UnlinkStep(n, maxLevel, to, tl, te, p, i);
      n := SetSlot(n, u, i, n[target].forward[i]);
      i := i + 1;
    }
  }

  /** Erase's trim: drop empty top levels, several in one call if need be, but
      never below one level. The result is the highest level some element is still
      linked at, or 1 when no element is linked above level 0 (or none is left). */
  method Trim(n: seq<Node>, maxLevel: nat, currentLevel: nat,
              ghost order: seq<nat>, ghost levels: seq<nat>, ghost elems: seq<int>)
    returns (level: nat)
    requires Linked(n, maxLevel, currentLevel, order, levels, elems) && 1 <= currentLevel
    ensures 1 <= level <= currentLevel
    ensures Linked(n, maxLevel, level, order, levels, elems)
    ensures level == 1 || exists k :: 0 <= k < |levels| && levels[k] == level
  {
    level := currentLevel;
    while level > 1 && n[HEADER].forward[level - 1] == NIL
      invariant 1 <= level <= currentLevel
      invariant Linked(n, maxLevel, level, order, levels, elems)
    {
      TrimStep(n, maxLevel, level, order, levels, elems);
      level := level - 1;
    }
    if 1 < level {
      LinkStep(n, maxLevel, level, order, levels, elems, -1, level - 1);
      assert levels[NextPos(levels, -1, level - 1)] == level;
    }
  }

  /** Insert after the level draw: append the new node, with `h` null slots, to the
      arena and splice it in behind `update` at its sorted position. The result is
      a correct list of the extended order, using `Max(currentLevel, h)` levels. */
  method AddNode(n0: seq<Node>, maxLevel: nat, currentLevel: nat, update: seq<int>, value: int, h: nat,
                 ghost so: seq<nat>, ghost sl: seq<nat>, ghost se: seq<int>)
    returns (n: seq<Node>)
    requires Linked(n0, maxLevel, currentLevel, so, sl, se) && value !in se && 1 <= h <= maxLevel
    requires |update| == maxLevel
    requires forall l :: 0 <= l < h ==> update[l] == NodeAt(so, PrevPos(sl, Boundary(se, value, false), l))
    ensures var p, x := Boundary(se, value, false), |n0|;
            x < |n| && |n[x].forward| == h &&
            Linked(n, maxLevel, Max(currentLevel, h), Ins(so, p, x), Ins(sl, p, h), Ins(se, p, value))
    ensures |n| == |n0| + 1 && forall y :: 0 <= y < |n0| ==> |n[y].forward| == |n0[y].forward|
  {
    ghost var p := Boundary(se, value, false);
    var x := |n0|;
    InsertSortedIsSetInsert(se, value);
    BoundaryMembership(se, value);
    SpliceStart(n0, maxLevel, currentLevel, so, sl, se, value, h);
    n := Splice(n0 + [Node(value, Nulls(h))], maxLevel, update, x, h, so, sl, Ins(se, p, value), p);
    SpliceDone(n, maxLevel, currentLevel, so, sl, Ins(se, p, value), p, x, h);
  }

  /** Erase once the node at position `p` is found: unlink it and trim the levels
      in use. */
  method RemoveNode(n0: seq<Node>, maxLevel: nat, currentLevel: nat, update: seq<int>, target: nat,
                    ghost to: seq<nat>, ghost tl: seq<nat>, ghost te: seq<int>, ghost p: nat)
    returns (n: seq<Node>, level: nat)
    requires Linked(n0, maxLevel, currentLevel, to, tl, te) && p < |to| && target == to[p]
    requires |update| == maxLevel
    requires forall l :: 0 <= l < currentLevel ==> update[l] == NodeAt(to, PrevPos(tl, p, l))
    ensures Linked(n, maxLevel, level, Del(to, p), Del(tl, p), Del(te, p))
    ensures 1 <= level <= currentLevel
    ensures level == 1 || exists k :: 0 <= k < |to| - 1 && Del(tl, p)[k] == level
    ensures |n| == |n0| && forall y :: 0 <= y < |n0| ==> |n[y].forward| == |n0[y].forward|
  {
    assert 1 <= tl[p] <= currentLevel;
    UnlinkStart(n0, maxLevel, currentLevel, to, tl, te, p);
    n := Unlink(n0, maxLevel, currentLevel, update, target, to, tl, te, p);
    UnlinkDone(n, maxLevel, currentLevel, to, tl, te, p);
    level := Trim(n, maxLevel, currentLevel, Del(to, p), Del(tl, p), Del(te, p));
  }

  /** `random_level`: one level, plus one for each head while below `maxLevel`.
      The coin outcomes are the parameter `flips`. */
  method RandomLevel(maxLevel: nat, flips: seq<bool>) returns (level: nat)
    ensures 1 <= level && (level <= maxLevel || level == 1)
    ensures forall j :: 0 <= j < level - 1 ==> Heads(flips, j)
    ensures level < maxLevel ==> !Heads(flips, level - 1)
    ensures level == LevelFor(maxLevel, flips)
  {
    level := 1;
    while level < maxLevel && Heads(flips, level - 1)
      invariant 1 <= level && (level <= maxLevel || level == 1)
      invariant forall j :: 0 <= j < level - 1 ==> Heads(flips, j)
    {
      level := level + 1;
    }
    LevelForUnique(maxLevel, flips, level);
  }

  /** The body of `insert` on the arena: descend to the insertion position; if the
      next node holds `value`, return it; otherwise draw a level, raise the levels
      in use if it is higher, and splice in a new node. */
  method InsertInto(n0: seq<Node>, maxLevel: nat, currentLevel: nat, value: int, flips: seq<bool>,
                    ghost so: seq<nat>, ghost sl: seq<nat>, ghost se: seq<int>)
    returns (n: seq<Node>, level: nat, it: int, inserted: bool)
    requires Linked(n0, maxLevel, currentLevel, so, sl, se)
    ensures inserted <==> value !in se
    ensures !inserted ==> it in so && n0[it].value == value && n == n0 && level == currentLevel
    ensures inserted ==>
              var p, h := Boundary(se, value, false), LevelFor(maxLevel, flips);
              it == |n0| && it < |n| && |n[it].forward| == h && level == Max(currentLevel, h) &&
              Linked(n, maxLevel, level, Ins(so, p, it), Ins(sl, p, h), Ins(se, p, value))
    ensures |n| >= |n0| && forall y :: 0 <= y < |n0| ==> |n[y].forward| == |n0[y].forward|
  {
    ghost var p := Boundary(se, value, false);
    var current, update := Descend(n0, maxLevel, currentLevel, value, false, so, sl, se);
    var next := n0[current].forward[0];
    BoundaryMembership(se, value);
    if next != NIL && n0[next].value == value {
      return n0, currentLevel, next, false;
    }
    var newLevel := RandomLevel(maxLevel, flips);
    level := currentLevel;
    if newLevel > level {
      update := RaiseLevels(update, maxLevel, level, newLevel, so, sl, p);
      level := newLevel;
    }
    it := |n0|;
    n := AddNode(n0, maxLevel, currentLevel, update, value, newLevel, so, sl, se);
    inserted := true;
  }

  /** The body of `erase` on the arena: descend to the position of `value`; if the
      next node holds it, unlink it and trim the levels in use. */
  method EraseFrom(n0: seq<Node>, maxLevel: nat, currentLevel: nat, value: int,
                   ghost to: seq<nat>, ghost tl: seq<nat>, ghost te: seq<int>)
    returns (n: seq<Node>, level: nat, erased: bool)
    requires Linked(n0, maxLevel, currentLevel, to, tl, te)
    ensures erased <==> value in te
    ensures !erased ==> n == n0 && level == currentLevel
    ensures erased ==>
              var p := Boundary(te, value, false);
              p < |to| &&
              Linked(n, maxLevel, level, Del(to, p), Del(tl, p), Del(te, p)) &&
              1 <= level <= currentLevel &&
              (level == 1 || exists k :: 0 <= k < |to| - 1 && Del(tl, p)[k] == level)
    ensures |n| == |n0| && forall y :: 0 <= y < |n0| ==> |n[y].forward| == |n0[y].forward|
  {
    ghost var p := Boundary(te, value, false);
    var current, update := Descend(n0, maxLevel, currentLevel, value, false, to, tl, te);
    var target := n0[current].forward[0];
    BoundaryMembership(te, value);
    if target != NIL && n0[target].value == value {
      n, level := RemoveNode(n0, maxLevel, currentLevel, update, target, to, tl, te, p);
      erased := true;
    } else {
      n, level, erased := n0, currentLevel, false;
    }
  }

  /** The slot count of each element's node, in level-0 order: what the copy
      constructor gives each copy. */
  ghost predicate SameHeights(n: seq<Node>, order: seq<nat>, src: seq<Node>, so: seq<nat>)
    requires forall k :: 0 <= k < |order| ==> order[k] < |n|
    requires forall k :: 0 <= k < |so| ==> so[k] < |src|
  {
    |order| == |so| && forall k :: 0 <= k < |order| ==> |n[order[k]].forward| == |src[so[k]].forward|
  }

  /** One round of the copy constructor's inner loop, for the element at position
      `k` of the source (node `cur`), with the copies of the elements before it at
      arena indices 1, 2, ... of `n` and linked at level 0 only. The new node gets as
      many slots as the original; for each non-null original slot the target value
      is searched for in the copy (`target` ends at the last copied node, since
      every copied value is smaller) and the slot takes `target`'s slot at the same
      level, read as null when `target` has no such slot. Every slot comes out null. */
  method CopySlots(n: seq<Node>, maxLevel: nat, currentLevel: nat, src: seq<Node>, cur: nat,
                   ghost order: seq<nat>, ghost ones: seq<nat>, ghost elems: seq<int>,
                   ghost so: seq<nat>, ghost sl: seq<nat>, ghost se: seq<int>, ghost k: nat)
    returns (fwd: seq<int>)
    requires ZeroLinked(n, maxLevel, order, elems)
    requires |n| == |order| + 1 && forall j :: 0 <= j < |order| ==> order[j] == j + 1
    requires |ones| == |order| && LevelZeroOnly(ones)
    requires Linked(src, maxLevel, currentLevel, so, sl, se) && k < |so| && cur == so[k]
    requires elems == se[..k]
    ensures |fwd| == |src[cur].forward| && forall i :: 0 <= i < |fwd| ==> fwd[i] == NIL
  {
    ZeroLinkedIsLinked(n, maxLevel, currentLevel, order, ones, elems);
    fwd := Nulls(|src[cur].forward|);
    var i := 0;
    while i < |fwd|
      invariant 0 <= i <= |fwd| == |src[cur].forward| && forall j :: 0 <= j < |fwd| ==> fwd[j] == NIL
    {
      var next := src[cur].forward[i];
      if next != NIL {
        SlotOf(src, maxLevel, currentLevel, so, sl, se, k, i);
        var val := src[next].value;
        assert forall j :: 0 <= j < |elems| ==> elems[j] < val by {
          forall j | 0 <= j < |elems| ensures elems[j] < val {
            assert elems[j] == se[j];
          }
        }
        var target, update := Descend(n, maxLevel, currentLevel, val, false, order, ones, elems);
        fwd := fwd[i := if i < |n[target].forward| then n[target].forward[i] else NIL];
      }
      i := i + 1;
    }
  }

  /** The as-written read `target->forward[i]` of the copy constructor's inner loop
      is in range: for every non-null slot `i` of the node being copied, the last
      copied node `target` has a slot `i`. */
  ghost predicate CopyReadInRange(n: seq<Node>, target: nat, src: seq<Node>, cur: nat)
    requires target < |n| && cur < |src|
  {
    forall i :: 0 <= i < |src[cur].forward| && src[cur].forward[i] != NIL ==> i < |n[target].forward|
  }

  /** A source list holding 10, 20 and 30, linked at 1, 2 and 2 of its 2 levels,
      each node with as many slots as it is linked at: the shape of list that
      inserting them with level draws 1, 2 and 2 produces. That it is a valid list
      is proved by `HazardLinked`. */
  const HazardNodes: seq<Node> := [Node(0, [1, 2]), Node(10, [2]), Node(20, [3, 3]), Node(30, [NIL, NIL])]
  const HazardOrder: seq<nat> := [1, 2, 3]
  const HazardLevels: seq<nat> := [1, 2, 2]

  lemma HazardLinked()
    ensures Linked(HazardNodes, 2, 2, HazardOrder, HazardLevels, [10, 20, 30])
  {
    var n, so, sl := HazardNodes, HazardOrder, HazardLevels;
    assert Shape(n, so, sl);
    HazardLevel(0);
    HazardLevel(1);
    assert Increasing([10, 20, 30]);
  }

  lemma HazardLevel(i: nat)
    requires i < 2
    ensures Shape(HazardNodes, HazardOrder, HazardLevels) && LevelLinked(HazardNodes, HazardOrder, HazardLevels, i)
  {
    var n, so, sl := HazardNodes, HazardOrder, HazardLevels;
    assert Shape(n, so, sl);
    if i == 0 {
      assert NextPos(sl, 2, 0) == 3 && NextPos(sl, 1, 0) == 2 && NextPos(sl, 0, 0) == 1 && NextPos(sl, -1, 0) == 0;
    } else {
      assert NextPos(sl, 2, 1) == 3 && NextPos(sl, 1, 1) == 2 && NextPos(sl, 0, 1) == 1 && NextPos(sl, -1, 1) == 1;
    }
  }

  /** The copy constructor's read can be out of range. After the first round, the
      copy of the hazard list holds the copy of 10, with one slot; copying 20, whose
      slot 1 leads to 30, reads slot 1 of that node. */
  lemma CopyReadOutOfRange()
    ensures Linked(HazardNodes, 2, 2, HazardOrder, HazardLevels, [10, 20, 30])
    ensures var n := [Node(0, [1, NIL]), Node(10, [NIL])];
            ZeroLinked(n, 2, [1], [10]) && NodeAt([1], 0) == 1 &&
            HazardOrder[1] == 2 && !CopyReadInRange(n, 1, HazardNodes, 2)
  {
    HazardLinked();
    var n := [Node(0, [1, NIL]), Node(10, [NIL])];
    assert HazardNodes[2].forward[1] != NIL && !(1 < |n[1].forward|);
  }

  /** One round of the copy constructor's outer loop: copy the source element at
      position `k` (node `cur`) and append the copy behind `prev`, the copy of the
      element before it (`prev->forward[0] = new_node`). */
  method CopyRound(n0: seq<Node>, maxLevel: nat, currentLevel: nat, src: seq<Node>, cur: nat, prev: nat,
                   ghost order: seq<nat>, ghost ones: seq<nat>,
                   ghost so: seq<nat>, ghost sl: seq<nat>, ghost se: seq<int>, ghost k: nat)
    returns (n: seq<Node>)
    requires Linked(src, maxLevel, currentLevel, so, sl, se) && k < |so| && cur == so[k]
    requires ZeroLinked(n0, maxLevel, order, se[..k])
    requires |n0| == k + 1 && |order| == k && forall j :: 0 <= j < k ==> order[j] == j + 1
    requires |ones| == k && LevelZeroOnly(ones) && prev == NodeAt(order, k - 1)
    ensures ZeroLinked(n, maxLevel, order + [|n0|], se[..k + 1])
    ensures |n| == |n0| + 1 && |n[|n0|].forward| == |src[cur].forward|
    ensures forall y :: 0 <= y < |n0| ==> n[y].value == n0[y].value && |n[y].forward| == |n0[y].forward|
  {
    var fwd := CopySlots(n0, maxLevel, currentLevel, src, cur, order, ones, se[..k], so, sl, se, k);
    var v := src[cur].value;
    assert forall j :: 0 <= j < k ==> se[..k][j] < v;
    CopyAppend(n0, maxLevel, order, se[..k], v, fwd);
    var x := |n0|;
    n := SetSlot(n0 + [Node(v, fwd)], prev, 0, x);
    assert se[..k + 1] == se[..k] + [v];
  }

  /** The copy constructor's outer loop: walk the source's level 0 and append a
      copy of each node behind the previous one. The copy holds the same values in
      the same order, its nodes have the same slot counts, and only level 0 is
      linked. */
  method CopyChain(src: seq<Node>, maxLevel: nat, currentLevel: nat,
                   ghost so: seq<nat>, ghost sl: seq<nat>, ghost se: seq<int>)
    returns (n: seq<Node>, ghost order: seq<nat>, ghost ones: seq<nat>)
    requires Linked(src, maxLevel, currentLevel, so, sl, se)
    ensures ZeroLinked(n, maxLevel, order, se) && |ones| == |order| && LevelZeroOnly(ones)
    ensures |n| == |so| + 1 && n[HEADER].value == 0
    ensures |order| == |so| && forall k :: 0 <= k < |order| ==> order[k] == k + 1
    ensures SameHeights(n, order, src, so)
  {
    LevelZeroLinks(src, maxLevel, currentLevel, so, sl, se);
    n := [Node(0, Nulls(maxLevel))];
    order := [];
    ones := [];
    var prev := HEADER;
    var cur := src[HEADER].forward[0];
    ghost var k := 0;
    while cur != NIL
      invariant 0 <= k <= |so| && cur == Target(so, k)
      invariant ZeroLinked(n, maxLevel, order, se[..k]) && n[HEADER].value == 0
      invariant |n| == k + 1 && |order| == k && forall j :: 0 <= j < k ==> order[j] == j + 1
      invariant |ones| == k && LevelZeroOnly(ones)
      invariant prev == NodeAt(order, k - 1)
      invariant SameHeights(n, order, src, so[..k])
      decreases |so| - k
    {
      var x := |n|;
      n := CopyRound(n, maxLevel, currentLevel, src, cur, prev, order, ones, so, sl, se, k);
      order := order + [x];
      ones := ones + [1];
      prev := x;
      cur := src[cur].forward[0];
      k := k + 1;
    }
    assert se[..k] == se && so[..k] == so;
  }

  class SkipList {
    var maxLevel: nat
    var currentLevel: nat
    var count: nat
    var nodes: seq<Node>
    ghost var order: seq<nat>
    ghost var levels: seq<nat>
    ghost var elems: seq<int>

    /** A usable list: its nodes form a correct skip list of `elems`, and `count`
        is the number of elements. */
    ghost predicate Valid()
      reads this
    {
      Linked(nodes, maxLevel, currentLevel, order, levels, elems) && count == |elems|
    }

    /** What a move leaves behind: no header, no elements, no levels in use. */
    ghost predicate MovedFrom()
      reads this
    {
      nodes == [] && count == 0 && currentLevel == 0 && order == [] && levels == [] && elems == []
    }

    /** `skip_list(max_level)`: a header with `maxLevel` null slots, no levels in use. */
    constructor (maxLevel: nat)
      requires 1 <= maxLevel
      ensures Valid() && this.maxLevel == maxLevel && currentLevel == 0 && elems == []
    {
      this.maxLevel := maxLevel;
      currentLevel := 0;
      count := 0;
      nodes := [Node(0, Nulls(maxLevel))];
      order, levels, elems := [], [], [];
    }

    /** The copy constructor: the same values in the same order, the same
        `maxLevel`, `currentLevel` and count; each copy has as many slots as its
        original, but only level 0 is linked. */
    constructor Copy(other: SkipList)
      requires other.Valid()
      ensures Valid() && elems == other.elems && LevelZeroOnly(levels)
      ensures maxLevel == other.maxLevel && currentLevel == other.currentLevel && count == other.count
      ensures SameHeights(nodes, order, other.nodes, other.order)
    {
      var n, o, ones := CopyChain(other.nodes, other.maxLevel, other.currentLevel,
                                  other.order, other.levels, other.elems);
      if 0 < |o| {
        assert 1 <= other.levels[0] <= other.currentLevel;
      }
      ZeroLinkedIsLinked(n, other.maxLevel, other.currentLevel, o, ones, other.elems);
      maxLevel := other.maxLevel;
      currentLevel := other.currentLevel;
      count := other.count;
      nodes := n;
      order, levels, elems := o, ones, other.elems;
    }

    /** The move constructor: takes over the other list's nodes and state, and
        leaves it with no header, no elements and no levels in use. */
    constructor Move(other: SkipList)
      requires other.Valid() || other.MovedFrom()
      modifies other
      ensures maxLevel == old(other.maxLevel) && currentLevel == old(other.currentLevel)
      ensures count == old(other.count) && nodes == old(other.nodes)
      ensures order == old(other.order) && levels == old(other.levels) && elems == old(other.elems)
      ensures old(other.Valid()) ==> Valid()
      ensures old(other.MovedFrom()) ==> MovedFrom()
      ensures other.MovedFrom() && other.maxLevel == old(other.maxLevel)
    {
      maxLevel := other.maxLevel;
      currentLevel := other.currentLevel;
      count := other.count;
      nodes := other.nodes;
      order, levels, elems := other.order, other.levels, other.elems;
      new;
      other.nodes := [];
      other.count := 0;
      other.currentLevel := 0;
      other.order, other.levels, other.elems := [], [], [];
    }

    /** `find`: the node holding `value`, or null (`end()`) if there is none. */
    method Find(value: int) returns (it: int)
      requires Valid()
      ensures it == NIL <==> value !in elems
      ensures it != NIL ==> it in order && nodes[it].value == value
    {
      ghost var p := Boundary(elems, value, false);
      var current, update := Descend(nodes, maxLevel, currentLevel, value, false, order, levels, elems);
      var next := nodes[current].forward[0];
      BoundaryMembership(elems, value);
      if next != NIL && nodes[next].value == value {
        it := next;
      } else {
        it := NIL;
      }
    }

    /** `lower_bound`: the node holding the least value not below `value`, or null
        if every value is below it. */
    method LowerBound(value: int) returns (it: int)
      requires Valid()
      ensures it == Target(order, Boundary(elems, value, false))
      ensures it == NIL <==> forall k :: 0 <= k < |elems| ==> elems[k] < value
      ensures it != NIL ==>
                it in order && value <= nodes[it].value &&
                (forall k :: 0 <= k < |elems| && value <= elems[k] ==> nodes[it].value <= elems[k])
    {
      var current, update := Descend(nodes, maxLevel, currentLevel, value, false, order, levels, elems);
      it := nodes[current].forward[0];
      BoundaryIsLeast(elems, value, false);
    }

    /** `upper_bound`: the node holding the least value above `value`, or null if
        no value is above it. */
    method UpperBound(value: int) returns (it: int)
      requires Valid()
      ensures it == Target(order, Boundary(elems, value, true))
      ensures it == NIL <==> forall k :: 0 <= k < |elems| ==> elems[k] <= value
      ensures it != NIL ==>
                it in order && value < nodes[it].value &&
                (forall k :: 0 <= k < |elems| && value < elems[k] ==> nodes[it].value <= elems[k])
    {
      var current, update := Descend(nodes, maxLevel, currentLevel, value, true, order, levels, elems);
      it := nodes[current].forward[0];
      BoundaryIsLeast(elems, value, true);
    }

    /** `size`: the number of elements. */
    function Size(): (r: nat)
      reads this
      requires Valid() || MovedFrom()
      ensures r == |elems|
    {
      count
    }

    /** `empty`: whether there are no elements. */
    function Empty(): (r: bool)
      reads this
      requires Valid() || MovedFrom()
      ensures r <==> elems == []
    {
      count == 0
    }

    /** `insert`: if `value` is present, its node and nothing changes; otherwise a
        new node with `LevelFor(maxLevel, flips)` levels is spliced in at its sorted
        position, raising `currentLevel` to its level if that is higher. */
    method Insert(value: int, flips: seq<bool>) returns (it: int, inserted: bool)
      requires Valid()
      modifies this
      ensures Valid() && maxLevel == old(maxLevel)
      ensures inserted <==> value !in old(elems)
      ensures elems == InsertSorted(old(elems), value)
      ensures Members(elems) == Members(old(elems)) + {value}
      ensures it in order && nodes[it].value == value
      ensures !inserted ==>
                nodes == old(nodes) && currentLevel == old(currentLevel) &&
                order == old(order) && levels == old(levels)
      ensures inserted ==>
                var p, h := Boundary(old(elems), value, false), LevelFor(maxLevel, flips);
                it == |old(nodes)| && |nodes[it].forward| == h &&
                order == Ins(old(order), p, it) && levels == Ins(old(levels), p, h) &&
                currentLevel == Max(old(currentLevel), h)
    ensures |nodes| >= |old(nodes)| &&
            forall y :: 0 <= y < |old(nodes)| ==> |nodes[y].forward| == |old(nodes)[y].forward|
    {
      ghost var p := Boundary(elems, value, false);
      ghost var h := LevelFor(maxLevel, flips);
      InsertSortedIsSetInsert(elems, value);
      BoundaryMembership(elems, value);
      var n, level;
      n, level, it, inserted := InsertInto(nodes, maxLevel, currentLevel, value, flips, order, levels, elems);
      if inserted {
        nodes, currentLevel := n, level;
        order, levels, elems := Ins(order, p, it), Ins(levels, p, h), Ins(elems, p, value);
        count := count + 1;
      }
    }

    /** `erase`: if `value` is present, its node is unlinked from every level it is
        on, the empty top levels are dropped (keeping at least one), and true is
        returned; otherwise nothing changes. */
    method Erase(value: int) returns (erased: bool)
      requires Valid()
      modifies this
      ensures Valid() && maxLevel == old(maxLevel)
      ensures erased <==> value in old(elems)
      ensures elems == RemoveSorted(old(elems), value)
      ensures Members(elems) == Members(old(elems)) - {value}
      ensures !erased ==>
                nodes == old(nodes) && currentLevel == old(currentLevel) &&
                order == old(order) && levels == old(levels)
      ensures erased ==>
                var p := Boundary(old(elems), value, false);
                order == Del(old(order), p) && levels == Del(old(levels), p) &&
                1 <= currentLevel <= old(currentLevel) &&
                (currentLevel == 1 || exists k :: 0 <= k < |levels| && levels[k] == currentLevel) &&
                (elems == [] ==> currentLevel == 1)
    ensures |nodes| == |old(nodes)| &&
            forall y :: 0 <= y < |old(nodes)| ==> |nodes[y].forward| == |old(nodes)[y].forward|
    {
      ghost var p := Boundary(elems, value, false);
      BoundaryMembership(elems, value);
      RemoveSortedIsSetRemove(elems, value);
      var n, level;
      n, level, erased := EraseFrom(nodes, maxLevel, currentLevel, value, order, levels, elems);
      if erased {
        nodes, currentLevel := n, level;
        order, levels, elems := Del(order, p), Del(levels, p), Del(elems, p);
        count := count - 1;
      }
    }

    /** `clear`: no-op without a header; otherwise every header slot becomes null
        and the list is empty with no levels in use. */
    method Clear()
      requires Valid() || MovedFrom()
      modifies this
      ensures old(MovedFrom()) ==> MovedFrom() && unchanged(this)
      ensures old(Valid()) ==> Valid() && elems == [] && currentLevel == 0 && maxLevel == old(maxLevel)
    {
      if |nodes| == 0 {
        return;
      }
      var i := 0;
      while i < maxLevel
        invariant 0 <= i <= maxLevel && HEADER < |nodes| == |old(nodes)|
        invariant |nodes[HEADER].forward| == maxLevel
        invariant forall l :: 0 <= l < i ==> nodes[HEADER].forward[l] == NIL
        invariant maxLevel == old(maxLevel)
      {
        nodes := SetSlot(nodes, HEADER, i, NIL);
        i := i + 1;
      }
      currentLevel := 0;
      count := 0;
      order, levels, elems := [], [], [];
    }

    /** Move assignment: unless `other` is this list, clear this list and take over
        `other`'s nodes and state, leaving `other` with no header. */
    method MoveAssign(other: SkipList)
      requires Valid() || MovedFrom()
      requires other.Valid() || other.MovedFrom()
      modifies this, other
      ensures other == this ==> unchanged(this)
      ensures other != this ==>
                maxLevel == old(other.maxLevel) && currentLevel == old(other.currentLevel) &&
                count == old(other.count) && nodes == old(other.nodes) &&
                order == old(other.order) && levels == old(other.levels) && elems == old(other.elems) &&
                other.MovedFrom() && other.maxLevel == old(other.maxLevel)
    {
      if this != other {
        Clear();
        maxLevel := other.maxLevel;
        currentLevel := other.currentLevel;
        count := other.count;
        nodes := other.nodes;
        order, levels, elems := other.order, other.levels, other.elems;
        other.nodes := [];
        other.count := 0;
        other.currentLevel := 0;
        other.order, other.levels, other.elems := [], [], [];
      }
    }

    /** `begin()`: the node of the first element, null when empty. */
    function Begin(): (it: int)
      reads this
      requires Valid()
      ensures it == Target(order, 0)
    {
      LevelZeroLinks(nodes, maxLevel, currentLevel, order, levels, elems);
      nodes[HEADER].forward[0]
    }

    /** Iterator `++`: the level-0 successor, staying at null at the end. */
    function Next(it: int): (r: int)
      reads this
      requires Valid() && (it == NIL || it in order)
      ensures it == NIL ==> r == NIL
      ensures forall k :: 0 <= k < |order| && order[k] == it ==> r == Target(order, k + 1)
      ensures r == NIL || r in order
    {
      LevelZeroLinks(nodes, maxLevel, currentLevel, order, levels, elems);
      LinkedUniqueAt(nodes, maxLevel, currentLevel, order, levels, elems, -1);
      if it == NIL then NIL else nodes[it].forward[0]
    }

    /** Iterator `*`: the value the node holds. */
    function Deref(it: int): (v: int)
      reads this
      requires Valid() && it in order
      ensures forall k :: 0 <= k < |order| && order[k] == it ==> v == elems[k]
    {
      nodes[it].value
    }

    /** The iterator reached from `it` by `steps` increments. */
    ghost function Walk(it: int, steps: nat): (r: int)
      reads this
      requires Valid() && (it == NIL || it in order)
      ensures r == NIL || r in order
      decreases steps
    {
      if steps == 0 then it else Walk(Next(it), steps - 1)
    }

    /** Incrementing from the `j`-th element visits the following ones in level-0
        order and then stays at the end. */
    lemma {:induction false} WalkFrom(j: nat, steps: nat)
      requires Valid() && j <= |order|
      ensures Walk(Target(order, j), steps) == Target(order, if j + steps < |order| then j + steps else |order|)
      decreases steps
    {
      if steps > 0 {
        if j < |order| {
          assert Next(order[j]) == Target(order, j + 1);
          WalkFrom(j + 1, steps - 1);
        } else {
          WalkFrom(j, steps - 1);
        }
      }
    }

    /** Iterating from `begin()` yields the elements in increasing order and reaches
        `end()` after `size()` increments. */
    lemma Traversal(steps: nat)
      requires Valid()
      ensures steps < |elems| ==> Walk(Begin(), steps) in order && Deref(Walk(Begin(), steps)) == elems[steps]
      ensures Walk(Begin(), |elems|) == NIL
    {
      WalkFrom(0, steps);
      WalkFrom(0, |elems|);
    }
  }

  /** The free `operator==`: equal sizes, then element by element along level 0. */
  method Equal(a: SkipList, b: SkipList) returns (eq: bool)
    requires a.Valid() && b.Valid()
    ensures eq <==> a.elems == b.elems
  {
    if a.Size() != b.Size() {
      return false;
    }
    var itA := a.Begin();
    var itB := b.Begin();
    ghost var k := 0;
    while itA != NIL
      invariant 0 <= k <= |a.elems| && itA == Target(a.order, k) && itB == Target(b.order, k)
      invariant a.elems[..k] == b.elems[..k]
      decreases |a.elems| - k
    {
      if a.Deref(itA) != b.Deref(itB) {
        return false;
      }
      assert a.elems[..k + 1] == a.elems[..k] + [a.elems[k]];
      assert b.elems[..k + 1] == b.elems[..k] + [b.elems[k]];
      itA := a.Next(itA);
      itB := b.Next(itB);
      k := k + 1;
    }
    assert a.elems[..k] == a.elems && b.elems[..k] == b.elems;
    eq := itB == NIL;
  }

  /** The free `operator!=`. */
  method NotEqual(a: SkipList, b: SkipList) returns (ne: bool)
    requires a.Valid() && b.Valid()
    ensures ne <==> a.elems != b.elems
  {
    var eq := Equal(a, b);
    ne := !eq;
  }

  /** Lists compare equal exactly when they hold the same values, whatever their
      level structure. */
  lemma EqualIffSameMembers(a: SkipList, b: SkipList)
    requires a.Valid() && b.Valid()
    ensures a.elems == b.elems <==> Members(a.elems) == Members(b.elems)
  {
    if Members(a.elems) == Members(b.elems) {
      IncreasingDeterminedByMembers(a.elems, b.elems);
    }
  }

  /** A copy compares equal to its source. */
  method CopyComparesEqual(l: SkipList) returns (c: SkipList, eq: bool)
    requires l.Valid()
    ensures c.Valid() && eq
  {
    c := new SkipList.Copy(l);
    eq := Equal(c, l);
  }
}

# Skip list, modelled in Dafny

A model of the templated `skip_list<T>` container of `include/skip_list.h`: a
sorted set kept as a tower of singly linked chains. The header node holds
`max_level` forward slots. Every element node is on the level-0 chain, and a node
created by `insert` with `h` slots is on chains `0 .. h-1`; a node created by the
copy constructor is on level 0 only. `current_level` bounds the chains in use
(no element is linked at or above it) and `count` is the number of elements. A
node's slot count is fixed when it is created; later operations only write its
slots.

The model keeps the container's algorithms and their loops:

- Node pointers become indices into an arena `nodes: seq<Node>` (a field of the
  class `SkipLists.SkipList`).
- Null is `NIL` (-1) and the header is index `HEADER` (0).
- `T` is `int`, and the header's default value `T()` is 0.
- Ghost fields give each list its abstract view:
  - `order`: the arena index of each element, in level-0 order;
  - `levels`: how many chains each element is linked into;
  - `elems`: the values.
- `Arena.Linked` is the structural invariant that ties the view to the links.
  - The values increase along level 0.
  - Every element is on level 0. No element is on a level at or above
    `current_level`.
  - Slot `i` of the header, and of every node on level `i`, points at the next
    position on level `i`, or at null.
  - Slots above a node's linked levels are null.
- `Valid()` is `Linked` plus `count == |elems|`.

The search descent that `find`, `insert`, `erase`, `lower_bound`, `upper_bound` and
the copy constructor share is one method, `Arena.Descend`. Each per-level advance is
`Arena.Advance`. Descend is proved to stop, on each level, at the predecessor of the
boundary position `SortedSeq.Boundary`, the first position whose value does not
precede the key (`<` for the others, `<=` for `upper_bound`).

The coins of `random_level` are a parameter `flips: seq<bool>`. Once the outcomes
run out, each further flip reads as tails. `Levels.LevelFor` is the level a
sequence of outcomes yields.

Iterators are arena indices and `end()` is `NIL`. Iterator `==` (line 69) is
therefore index equality, and the equality operator's loop uses it directly.

`Scenarios` replays the repository's tests (`test/skip_list_test.cpp`) against the
model, for every sequence of coin outcomes.

Three behaviours of the code are worth knowing, and the model states them:

- An erase that empties the list leaves `current_level` at 1, because the trim
  stops at 1 (`SkipLists.SkipList.Erase`). `clear`, a fresh list and a moved-from
  list have 0; a copy or a move keeps the source's value.
- The copy constructor links level 0 only: every slot above level 0 comes out null
  (see Findings).
- After a move, the source has no header. Only `empty`, `size`, `clear` and a
  further move are defined on it (`MovedFrom`).

## Model

| member | source | states |
|---|---|---|
| Arena.Descend | include/skip_list.h:155-163 | the node the descent ends at holds the last value below the key, and its level-0 slot leads to the first value not below it; `update[i]` is the level-`i` predecessor of that position for every level in use, and null above |
| Arena.Advance | include/skip_list.h:142-144 | on one level, advancing while the next value precedes the key stops exactly at that level's predecessor of the boundary position |
| Arena.DescentEnds | include/skip_list.h:146 | after the descent, the level-0 link leads to the boundary position, also when no level is in use |
| Arena.LevelZeroLinks | include/skip_list.h:58-61 | in a valid list, the header's slot 0 leads to the first element and each element's slot 0 to the next one, the last to null |
| Arena.HeaderNullAbove | include/skip_list.h:169-174 | header slots at or above `current_level` are null |
| Arena.HeaderNullEmpty | include/skip_list.h:203 | a null header slot at level `i` means no element is linked at level `i`, which is what lets the trim drop that level |
| Levels.LevelForIsGeometric | include/skip_list.h:24-30 | the drawn level is 1 plus the number of leading heads, stopped by tails unless it reached `max_level` |
| Levels.LevelForUnique | include/skip_list.h:24-30 | that geometric description determines the level |
| SkipLists.RandomLevel | include/skip_list.h:24-30 | the loop returns a level in `[1, max_level]` (1 when `max_level` is 0), preceded only by heads and stopped by tails below `max_level`, equal to `LevelFor` |
| SkipLists.RaiseLevels | include/skip_list.h:169-174 | after raising, `update[i]` is the predecessor of the insertion position on every level below the new level, the new levels' being the header |
| SkipLists.Splice | include/skip_list.h:176-180 | after splicing `h` levels, the new node is linked after its predecessor and before its successor on each of those levels; no node's slot count changes |
| SkipLists.AddNode | include/skip_list.h:176-182 | the list with the new node, which has `h` slots, is valid for the order, levels and values with the node inserted at its sorted position, using `max(current_level, h)` levels; the existing nodes keep their slot counts |
| SkipLists.InsertInto | include/skip_list.h:154-184 | inserts exactly when the value is absent; otherwise returns the existing node with the arena and level unchanged; when it inserts, the result has `LevelFor` slots and is valid for the extended sequences; the existing nodes keep their slot counts |
| SkipLists.Unlink | include/skip_list.h:198-201 | the loop stops at the number of levels the node is linked at, since the first mismatching predecessor is exactly there, and bypasses the node on every level below; no node's slot count changes |
| SkipLists.Trim | include/skip_list.h:203-205 | the trimmed level keeps the list valid and lies between 1 and the old level; it is the highest level some element is still linked at, or 1, so every empty top level is dropped, several in one call |
| Updates.TrimStep | include/skip_list.h:203-204 | dropping a top level whose header slot is null keeps the list valid |
| SkipLists.RemoveNode | include/skip_list.h:196-207 | unlinking and trimming yields a valid list for the sequences with the erased position deleted, with a level between 1 and the old one that is the highest level still in use, or 1; no node's slot count changes |
| SkipLists.EraseFrom | include/skip_list.h:186-210 | erases exactly when the value is present; otherwise the arena and level are unchanged; after an erase the level is the highest level still in use, or 1; no node's slot count changes |
| SkipLists.SkipList.constructor | include/skip_list.h:109-116 | a new list is valid and empty, with the given `max_level` and no levels in use |
| SkipLists.SkipList.Find | include/skip_list.h:139-152 | returns null exactly when the value is absent, and otherwise an element node holding the value |
| SkipLists.SkipList.LowerBound | include/skip_list.h:212-221 | returns the node at the boundary position: null exactly when every value is below the key, and otherwise the least value not below it |
| SkipLists.SkipList.UpperBound | include/skip_list.h:223-232 | the same with `<=`: null exactly when no value is above the key, and otherwise the least value above it |
| SkipLists.SkipList.Size | include/skip_list.h:235 | `size()` is the number of elements |
| SkipLists.SkipList.Empty | include/skip_list.h:234 | `empty()` holds exactly when there are no elements |
| SkipLists.SkipList.Insert | include/skip_list.h:154-184 | keeps the list valid; inserts exactly when the value was absent; the values become the sorted insertion and the set gains the value; the returned node holds the value; a duplicate changes nothing; a new node has `LevelFor` slots at its sorted position and `current_level` rises to its level; every existing node keeps its slot count |
| SkipLists.SkipList.Erase | include/skip_list.h:186-210 | keeps the list valid; erases exactly when the value was present; the values lose it and the set loses it; a miss changes nothing; a hit deletes that position and leaves `current_level` between 1 and its old value, equal to the highest level still in use or 1, and 1 when the list is left empty; every node keeps its slot count |
| SkipLists.SkipList.Clear | include/skip_list.h:237-253 | a list without a header is untouched; otherwise the list stays valid, is empty and has no levels in use, with its `max_level` unchanged |
| SkipLists.SkipList.Move | include/skip_list.h:289-299 | the new list takes over the other's nodes and state (valid if the other was), and the other is left with no header, no elements and no levels in use |
| SkipLists.SkipList.MoveAssign | include/skip_list.h:330-347 | self-assignment changes nothing; otherwise this list takes over the other's nodes and state, and the other is left with no header |
| SkipLists.CopySlots | include/skip_list.h:268-281 | the new node gets as many slots as the original, each null: the re-search ends at the last copied node, whose slots are all null (read as null where it has no such slot) |
| SkipLists.CopyRound | include/skip_list.h:266-285 | one outer round appends a copy of the next element behind the previous copy, extending a level-0-only list of the values so far |
| SkipLists.CopyChain | include/skip_list.h:262-286 | the copy's level-0 chain holds the source's values in order, each node with its original's slot count |
| Updates.ZeroLinkedIsLinked | include/skip_list.h:255-287 | a list linked on level 0 only, with every other slot null, is a valid list in which each element is linked at one level |
| SkipLists.SkipList.Copy | include/skip_list.h:255-287 | the copy is valid, holds the same values in the same order, has the same `max_level`, `current_level` and count, gives each copy its original's slot count, and links every element at level 0 only |
| SkipLists.SkipList.Begin | include/skip_list.h:130 | `begin()` is the first element's node, null when empty |
| SkipLists.SkipList.Next | include/skip_list.h:58-61 | `++` moves from an element's node to the next element's node (null after the last) and stays at null |
| SkipLists.SkipList.Deref | include/skip_list.h:55 | `*it` is the value at the iterator's position |
| SkipLists.SkipList.WalkFrom | include/skip_list.h:58-61 | `s` increments from the `j`-th element reach the `(j+s)`-th, or null past the end |
| SkipLists.SkipList.Traversal | include/skip_list.h:130-131 | iterating from `begin()` yields the values in increasing order and reaches `end()` after `size()` increments |
| SkipLists.Equal | include/skip_list.h:351-362 | `==` holds exactly when the two lists hold the same value sequence |
| SkipLists.NotEqual | include/skip_list.h:364-367 | `!=` holds exactly when the value sequences differ |
| SkipLists.EqualIffSameMembers | include/skip_list.h:351-362 | the value sequences are equal exactly when the sets of values are, whatever the level structure |
| SkipLists.CopyComparesEqual | include/skip_list.h:255-287 | a copy compares equal to its source |
| SortedSeq.BoundaryIsLeast | include/skip_list.h:212-232 | the boundary is the end exactly when every value precedes the key, and otherwise holds the least value that does not |
| SortedSeq.BoundaryMembership | include/skip_list.h:146-151 | the value is present exactly when the boundary position holds it, which is find's equality test |
| SortedSeq.InsertSortedIsSetInsert | include/skip_list.h:154-184 | inserting at the boundary keeps the values increasing and adds the value to their set |
| SortedSeq.RemoveSortedIsSetRemove | include/skip_list.h:186-210 | removing at the boundary keeps the values increasing and removes the value from their set |
| SortedSeq.IncreasingDeterminedByMembers | include/skip_list.h:351-362 | two increasing sequences with the same values are equal |

## Left out

- The random engine and the coin's distribution: coin outcomes are the `flips` parameter, and nothing is proved about probabilities.
- Copy assignment (`operator=(const skip_list&)`, lines 302-327) is not modelled. Its `get_node_by_value` searches the source list, so the copy's slots point into the source's nodes. The model has no form for that aliasing, which is a defect of the source.
- `get_node_by_value` (lines 32-40) is used only by copy assignment and is left out with it.
- The destructor and all memory management: erased and cleared nodes stay in the arena, unreachable.
- `const_iterator`, the const and `c` variants of `begin`/`end`, iterator post-increment and `operator->`: they repeat the modelled iterator.
- The element type is `int`: `T`'s `<` and `==` are integer order and equality. `Person` and the demo in `src/main.cpp` are left out.
- `size_t` wrap-around of `count` and of the level arithmetic is not modelled: integers are unbounded.
- `max_level == 0`: the constructor requires at least 1, since the header needs a level-0 slot.
- A moved-from list supports only `empty`, `size`, `clear` and being moved again. The source dereferences its null header in every other operation.
- SkipLists.SkipList.Copy: links level 0 only, as the source's copy constructor does; the copy's higher levels are not rebuilt.
- SkipLists.CopySlots: reads a slot the target node lacks as null, where the source reads out of range (see Findings).
- Concurrency: the container is single-threaded.

## Findings

| source | as written | input that shows it | evidently intended | confidence | as-written member | corrected member |
|---|---|---|---|---|---|---|
| include/skip_list.h:268-277 | for each non-null slot `i` of the node being copied, the copy constructor re-searches the copy and reads `target->forward[i]`, where `target` is the last node copied so far and may have fewer than `i+1` slots | inserting 10, 20, 30 into a list with `max_level` 2 with level draws 1, 2, 2; copying 20 (whose slot 1 leads to 30) reads slot 1 of the copy of 10, which has one slot | read only slots the target has; since every such slot of the partial copy is null, the new node's slots are all null | not executed | SkipLists.CopyReadOutOfRange | SkipLists.CopySlots |

/** The behaviours exercised by the repository's tests (test/skip_list_test.cpp),
    replayed against the model for every sequence of coin outcomes. */
module Scenarios {

  import opened SortedSeq
  import opened Chains
  import opened Arena
  import opened SkipLists

  /** One insert into a valid list, seen through its set of values. */
  method AddOne(sl: SkipList, v: int, flips: seq<bool>)
    requires sl.Valid()
    modifies sl
    ensures sl.Valid() && Members(sl.elems) == old(Members(sl.elems)) + {v}
  {
    var _, _ := sl.Insert(v, flips);
  }

  /** A default list after inserting `a`, `b` and `c`, in that order. */
  method ListOf3(a: int, b: int, c: int, f1: seq<bool>, f2: seq<bool>, f3: seq<bool>)
    returns (sl: SkipList)
    ensures fresh(sl) && sl.Valid() && Members(sl.elems) == {a, b, c}
  {
    sl := new SkipList(DEFAULT_MAX_LEVEL);
    AddOne(sl, a, f1);
    AddOne(sl, b, f2);
    AddOne(sl, c, f3);
  }

  /** Three distinct values, whatever the insertion order, are held in increasing order. */
  lemma InOrder(s: seq<int>, a: int, b: int, c: int)
    requires Increasing(s) && a < b < c && Members(s) == {a, b, c}
    ensures s == [a, b, c]
  {
    assert Members([a, b, c]) == {a, b, c};
    IncreasingDeterminedByMembers(s, [a, b, c]);
  }

  method InsertAndDuplicate(f1: seq<bool>, f2: seq<bool>) {
    var sl := new SkipList(DEFAULT_MAX_LEVEL);
    var it1, ok1 := sl.Insert(5, f1);
    assert ok1 && sl.Deref(it1) == 5;
    var it2, ok2 := sl.Insert(5, f2);
    assert !ok2 && sl.Deref(it2) == 5;
  }

  method Find(f1: seq<bool>, f2: seq<bool>, f3: seq<bool>) {
    var sl := ListOf3(5, 10, 15, f1, f2, f3);
    assert 5 in Members(sl.elems) && 99 !in Members(sl.elems);
    var it5 := sl.Find(5);
    assert it5 != NIL && sl.Deref(it5) == 5;
    var it99 := sl.Find(99);
    assert it99 == NIL;
  }

  method Erase(f1: seq<bool>, f2: seq<bool>) {
    var sl := new SkipList(DEFAULT_MAX_LEVEL);
    AddOne(sl, 5, f1);
    AddOne(sl, 10, f2);
    InErase(sl);
  }

  method InErase(sl: SkipList)
    requires sl.Valid() && Members(sl.elems) == {5, 10}
    modifies sl
  {
    InOrder2(sl.elems, 5, 10);
    var erased := sl.Erase(5);
    assert erased && sl.Size() == 1;
    assert 5 !in Members(sl.elems);
    var it := sl.Find(5);
    assert it == NIL;
    erased := sl.Erase(5);
    assert !erased && sl.Size() == 1;
  }

  /** Two distinct values are held in increasing order. */
  lemma InOrder2(s: seq<int>, a: int, b: int)
    requires Increasing(s) && a < b && Members(s) == {a, b}
    ensures s == [a, b]
  {
    assert Members([a, b]) == {a, b};
    IncreasingDeterminedByMembers(s, [a, b]);
  }

  method Bounds(f1: seq<bool>, f2: seq<bool>, f3: seq<bool>) {
    var sl := ListOf3(10, 20, 15, f1, f2, f3);
    InOrder(sl.elems, 10, 15, 20);
    var lb := sl.LowerBound(14);
    assert sl.Deref(lb) == 15;
    var ub := sl.UpperBound(15);
    assert sl.Deref(ub) == 20;
  }

  method CopyConstructor(f1: seq<bool>, f2: seq<bool>, f3: seq<bool>) {
    var sl := new SkipList(DEFAULT_MAX_LEVEL);
    AddOne(sl, 10, f1);
    AddOne(sl, 20, f2);
    var sl2 := new SkipList.Copy(sl);
    var eq := Equal(sl, sl2);
    assert eq;
    assert 30 !in Members(sl2.elems);
    AddOne(sl2, 30, f3);
    var ne := NotEqual(sl, sl2);
    assert 30 in Members(sl2.elems) && 30 !in Members(sl.elems);
    assert ne;
  }

  method MoveConstructor(f1: seq<bool>, f2: seq<bool>) {
    var sl := new SkipList(DEFAULT_MAX_LEVEL);
    AddOne(sl, 10, f1);
    AddOne(sl, 20, f2);
    var sl2 := new SkipList.Move(sl);
    assert !sl2.Empty() && sl.Empty();
  }

  method Clear(f1: seq<bool>, f2: seq<bool>) {
    var sl := new SkipList(DEFAULT_MAX_LEVEL);
    AddOne(sl, 10, f1);
    AddOne(sl, 20, f2);
    sl.Clear();
    assert sl.Empty() && sl.Size() == 0;
  }

  method IteratorTraversal(f1: seq<bool>, f2: seq<bool>, f3: seq<bool>) {
    var sl := ListOf3(5, 1, 3, f1, f2, f3);
    InOrder(sl.elems, 1, 3, 5);
    var it := sl.Begin();
    assert it != NIL && sl.Deref(it) == 1;
    it := sl.Next(it);
    assert it != NIL && sl.Deref(it) == 3;
    it := sl.Next(it);
    assert it != NIL && sl.Deref(it) == 5;
    it := sl.Next(it);
    assert it == NIL;
  }

  method EmptyList() {
    var sl := new SkipList(DEFAULT_MAX_LEVEL);
    assert sl.Empty() && sl.Size() == 0 && sl.Begin() == NIL;
  }

  method UpperBoundEdgeCases(f1: seq<bool>, f2: seq<bool>, f3: seq<bool>) {
    var sl := ListOf3(10, 20, 30, f1, f2, f3);
    InOrder(sl.elems, 10, 20, 30);
    var ub := sl.UpperBound(10);
    assert sl.Deref(ub) == 20;
    ub := sl.UpperBound(20);
    assert sl.Deref(ub) == 30;
    ub := sl.UpperBound(100);
    assert ub == NIL;
  }

  method LowerBoundEdgeCases(f1: seq<bool>, f2: seq<bool>, f3: seq<bool>) {
    var sl := ListOf3(10, 20, 30, f1, f2, f3);
    InOrder(sl.elems, 10, 20, 30);
    var lb := sl.LowerBound(15);
    assert sl.Deref(lb) == 20;
    lb := sl.LowerBound(20);
    assert sl.Deref(lb) == 20;
    lb := sl.LowerBound(100);
    assert lb == NIL;
  }
}

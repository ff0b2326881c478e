/** The abstract view of a skip list: the strictly increasing sequence of the
    values on its level-0 chain, and the set operations the container performs
    on it. */
module SortedSeq {

  import opened Seqs

  /** The level-0 order of a skip list: strictly increasing, so no duplicates. */
  ghost predicate Increasing(s: seq<int>) {
    forall j, k :: 0 <= j < k < |s| ==> s[j] < s[k]
  }

  /** Appending a value above every element keeps a sequence increasing. */
  lemma IncreasingAppend(s: seq<int>, v: int)
    requires Increasing(s) && forall k :: 0 <= k < |s| ==> s[k] < v
    ensures Increasing(s + [v])
  {
    var t := s + [v];
    forall j, k | 0 <= j < k < |t| ensures t[j] < t[k] {
      assert t[j] == s[j];
    }
  }

  ghost function Members(s: seq<int>): set<int> {
    set x | x in s
  }

  /** The advance test of the search descent: `x < key`, or `x <= key` for upper_bound. */
  predicate Precedes(x: int, key: int, inclusive: bool) {
    if inclusive then x <= key else x < key
  }

  /** The number of leading elements of `s` that precede `key`: the index of the
      first element `>= key` (or `> key` when `inclusive`). */
  ghost function Boundary(s: seq<int>, key: int, inclusive: bool): (p: nat)
    ensures p <= |s|
    ensures forall j :: 0 <= j < p ==> Precedes(s[j], key, inclusive)
    ensures p < |s| ==> !Precedes(s[p], key, inclusive)
  {
    if s == [] || !Precedes(s[0], key, inclusive) then 0
    else 1 + Boundary(s[1..], key, inclusive)
  }

  /** On an increasing sequence the boundary splits it: everything before it
      precedes `key`, nothing after it does. */
  lemma BoundarySplits(s: seq<int>, key: int, inclusive: bool, j: int)
    requires Increasing(s) && 0 <= j < |s|
    ensures Precedes(s[j], key, inclusive) <==> j < Boundary(s, key, inclusive)
  {
    var p := Boundary(s, key, inclusive);
    if p <= j && p < |s| {
      assert p == j || s[p] < s[j];
    }
  }

  /** The element at the boundary is the least one that does not precede `key`, and
      the boundary is the end exactly when every element precedes `key`. */
  lemma BoundaryIsLeast(s: seq<int>, key: int, inclusive: bool)
    requires Increasing(s)
    ensures var p := Boundary(s, key, inclusive);
            (p == |s| <==> forall k :: 0 <= k < |s| ==> Precedes(s[k], key, inclusive)) &&
            (p < |s| ==> forall k :: 0 <= k < |s| && !Precedes(s[k], key, inclusive) ==> s[p] <= s[k])
  {
    var p := Boundary(s, key, inclusive);
    forall k | 0 <= k < |s| && !Precedes(s[k], key, inclusive) ensures p <= k && s[p] <= s[k] { }
  }

  /** `key` is stored exactly when the element at the lower boundary equals it. */
  lemma BoundaryMembership(s: seq<int>, key: int)
    requires Increasing(s)
    ensures var p := Boundary(s, key, false);
            key in s <==> p < |s| && s[p] == key
  {
    var p := Boundary(s, key, false);
    if key in s {
      var j :| 0 <= j < |s| && s[j] == key;
      BoundarySplits(s, key, false, j);
      assert p <= j < |s| && s[p] <= s[j];
    }
  }

  /** Set insertion on the sorted sequence: put `v` at its boundary unless present. */
  ghost function InsertSorted(s: seq<int>, v: int): seq<int> {
    var p := Boundary(s, v, false);
    if p < |s| && s[p] == v then s else Ins(s, p, v)
  }

  /** Set removal on the sorted sequence: drop the element at the boundary if it is `v`. */
  ghost function RemoveSorted(s: seq<int>, v: int): seq<int> {
    var p := Boundary(s, v, false);
    if p < |s| && s[p] == v then Del(s, p) else s
  }

  lemma InsertSortedIsSetInsert(s: seq<int>, v: int)
    requires Increasing(s)
    ensures Increasing(InsertSorted(s, v))
    ensures Members(InsertSorted(s, v)) == Members(s) + {v}
    ensures |InsertSorted(s, v)| == if v in s then |s| else |s| + 1
  {
    var p := Boundary(s, v, false);
    BoundaryMembership(s, v);
    if !(p < |s| && s[p] == v) {
      var r := Ins(s, p, v);
      forall j, k | 0 <= j < k < |r| ensures r[j] < r[k] {
        if j == p {
          BoundarySplits(s, v, false, k - 1);
        } else if j > p {
          assert r[j] == s[j - 1] && r[k] == s[k - 1];
        } else if k > p {
          assert r[k] == s[k - 1];
        }
      }
      InsMembers(s, p, v);
    }
  }

  lemma RemoveSortedIsSetRemove(s: seq<int>, v: int)
    requires Increasing(s)
    ensures Increasing(RemoveSorted(s, v))
    ensures Members(RemoveSorted(s, v)) == Members(s) - {v}
    ensures |RemoveSorted(s, v)| == if v in s then |s| - 1 else |s|
  {
    var p := Boundary(s, v, false);
    BoundaryMembership(s, v);
    if p < |s| && s[p] == v {
      var r := Del(s, p);
      forall j, k | 0 <= j < k < |r| ensures r[j] < r[k] {
        if j >= p {
          assert r[j] == s[j + 1] && r[k] == s[k + 1];
        } else if k >= p {
          assert r[k] == s[k + 1];
        }
      }
      DelMembers(s, p);
      forall j | 0 <= j < |r| ensures r[j] != v {
        if j < p { assert s[j] < s[p]; } else { assert s[p] < s[j + 1]; }
      }
    }
  }

  lemma MembersOfEmpty(s: seq<int>)
    ensures Members(s) == {} <==> s == []
  {
    if s != [] {
      assert s[0] in Members(s);
    }
  }

  /** The smallest member of a non-empty increasing sequence is its head. */
  lemma HeadIsLeast(s: seq<int>, x: int)
    requires Increasing(s) && s != [] && x in s
    ensures s[0] <= x
  {
  }

  /** An increasing sequence is determined by its members: two skip lists with the
      same contents have the same level-0 order, whatever their level structure. */
  lemma {:induction false} IncreasingDeterminedByMembers(a: seq<int>, b: seq<int>)
    requires Increasing(a) && Increasing(b) && Members(a) == Members(b)
    ensures a == b
  {
    MembersOfEmpty(a);
    MembersOfEmpty(b);
    if a != [] && b != [] {
      assert a[0] in Members(b) && b[0] in Members(a);
      HeadIsLeast(a, b[0]);
      HeadIsLeast(b, a[0]);
      assert Members(a[1..]) == Members(b[1..]) by {
        forall x ensures x in a[1..] <==> x in b[1..] {
          if x in a[1..] {
            var m :| 0 <= m < |a| - 1 && a[1..][m] == x;
            assert a[m + 1] == x && a[0] < x;
            assert x in Members(b);
            var n :| 0 <= n < |b| && b[n] == x;
            assert b[1..][n - 1] == x;
          }
          if x in b[1..] {
            var m :| 0 <= m < |b| - 1 && b[1..][m] == x;
            assert b[m + 1] == x && b[0] < x;
            assert x in Members(a);
            var n :| 0 <= n < |a| && a[n] == x;
            assert a[1..][n - 1] == x;
          }
        }
      }
      IncreasingDeterminedByMembers(a[1..], b[1..]);
      assert a == [a[0]] + a[1..] && b == [b[0]] + b[1..];
    }
  }
}

/** Positional insertion into and deletion from a sequence: how the level-0
    order, the linked-level counts and the stored values change when a node is
    spliced in or unlinked at position `p`. */
module Seqs {

  function Ins<X>(s: seq<X>, p: nat, x: X): (r: seq<X>)
    requires p <= |s|
    ensures |r| == |s| + 1
    ensures forall j {:trigger r[j]} :: 0 <= j < |r| ==>
              r[j] == if j < p then s[j] else if j == p then x else s[j - 1]
  {
    s[..p] + [x] + s[p..]
  }

  function Del<X>(s: seq<X>, p: nat): (r: seq<X>)
    requires p < |s|
    ensures |r| == |s| - 1
    ensures forall j {:trigger r[j]} :: 0 <= j < |r| ==> r[j] == if j < p then s[j] else s[j + 1]
  {
    s[..p] + s[p + 1..]
  }

  lemma InsMembers<X>(s: seq<X>, p: nat, x: X)
    requires p <= |s|
    ensures forall y :: y in Ins(s, p, x) <==> y in s || y == x
  {
    var r := Ins(s, p, x);
    forall y ensures y in r <==> y in s || y == x {
      if y in s {
        var j :| 0 <= j < |s| && s[j] == y;
        if j < p { assert r[j] == y; } else { assert r[j + 1] == y; }
      }
      if y in r {
        var j :| 0 <= j < |r| && r[j] == y;
        if j < p { assert s[j] == y; } else if j > p { assert s[j - 1] == y; }
      }
    }
  }

  lemma DelMembers<X>(s: seq<X>, p: nat)
    requires p < |s|
    ensures forall y :: y in Del(s, p) ==> y in s
    ensures forall y :: y in s && y != s[p] ==> y in Del(s, p)
  {
    var r := Del(s, p);
    forall y | y in s && y != s[p] ensures y in r {
      var j :| 0 <= j < |s| && s[j] == y;
      if j < p { assert r[j] == y; } else { assert r[j - 1] == y; }
    }
  }
}

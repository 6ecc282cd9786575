/** Facts about sequences without repetitions, shared by the registry and the geometry. */
module Seqs {

  /** The elements of `s` are pairwise different. */
  ghost predicate Distinct<T>(s: seq<T>) {
    forall i, j :: 0 <= i < j < |s| ==> s[i] != s[j]
  }

  function Elements<T>(s: seq<T>): set<T> {
    set i | 0 <= i < |s| :: s[i]
  }

  lemma {:induction false} DistinctCardinality<T>(s: seq<T>)
    requires Distinct(s)
    ensures |Elements(s)| == |s|
  {
    if s != [] {
      var t := s[..|s| - 1];
      DistinctCardinality(t);
      assert Elements(s) == Elements(t) + {s[|s| - 1]};
      assert s[|s| - 1] !in Elements(t);
    }
  }

  /** The concatenation of the pieces, in order. */
  function Flat<T>(xss: seq<seq<T>>): seq<T> {
    if xss == [] then [] else Flat(xss[..|xss| - 1]) + xss[|xss| - 1]
  }

  /** An element of either part is an element of the concatenation. */
  lemma InAppend<T>(x: T, xs: seq<T>, ys: seq<T>)
    ensures x in xs + ys <==> x in xs || x in ys
  {
  }

  /** Indexing into a concatenation of three pieces indexes into the piece that holds the position. */
  lemma ConcatAt<T>(xs: seq<T>, ys: seq<T>, zs: seq<T>, i: nat)
    requires i < |xs| + |ys| + |zs|
    ensures i < |xs| ==> (xs + ys + zs)[i] == xs[i]
    ensures |xs| <= i < |xs| + |ys| ==> (xs + ys + zs)[i] == ys[i - |xs|]
    ensures |xs| + |ys| <= i ==> (xs + ys + zs)[i] == zs[i - |xs| - |ys|]
  {
  }

  /** Appending one more piece appends its elements. */
  lemma FlatSnoc<T>(xss: seq<seq<T>>, i: nat)
    requires i < |xss|
    ensures Flat(xss[..i + 1]) == Flat(xss[..i]) + xss[i]
  {
    assert xss[..i + 1][..i] == xss[..i];
  }

  /** An element of the concatenation comes from one of the pieces, and every piece is in it. */
  lemma {:induction false} FlatMembers<T>(xss: seq<seq<T>>, x: T)
    ensures x in Flat(xss) <==> exists i :: 0 <= i < |xss| && x in xss[i]
  {
    if xss != [] {
      var pre := xss[..|xss| - 1];
      FlatMembers(pre, x);
      assert forall i :: 0 <= i < |pre| ==> pre[i] == xss[i];
    }
  }

  /** The piece an element of the concatenation comes from. */
  lemma FlatPick<T>(xss: seq<seq<T>>, x: T) returns (i: nat)
    requires x in Flat(xss)
    ensures i < |xss| && x in xss[i]
  {
    FlatMembers(xss, x);
    i :| 0 <= i < |xss| && x in xss[i];
  }

  /** An element of one piece is an element of the concatenation. */
  lemma FlatHas<T>(xss: seq<seq<T>>, i: nat, x: T)
    requires i < |xss| && x in xss[i]
    ensures x in Flat(xss)
  {
    FlatMembers(xss, x);
  }
}

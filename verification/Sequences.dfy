/** Removing repetitions, and counting distinct elements. */
module Sequences {
  ghost predicate Distinct(s: seq<nat>) {
    forall i, j :: 0 <= i < j < |s| ==> s[i] != s[j]
  }

  /** The elements that are not skipped, each once, in order of first appearance. */
  function Dedup(s: seq<nat>, skip: set<nat>): (d: seq<nat>)
    ensures |d| <= |s|
  {
    if s == [] then []
    else
      var d := Dedup(s[..|s| - 1], skip);
      var x := s[|s| - 1];
      if x in skip || x in d then d else d + [x]
  }

  lemma {:induction false} DedupMembers(s: seq<nat>, skip: set<nat>, x: nat)
    ensures x in Dedup(s, skip) <==> x in s && x !in skip
  {
    if s == [] {
    } else {
      var init, y := s[..|s| - 1], s[|s| - 1];
      DedupMembers(init, skip, x);
      DedupMembers(init, skip, y);
      assert x in s <==> x in init || x == y;
    }
  }

  lemma {:induction false} DedupDistinct(s: seq<nat>, skip: set<nat>)
    ensures Distinct(Dedup(s, skip))
  {
    if s == [] {
    } else {
      DedupDistinct(s[..|s| - 1], skip);
    }
  }

  lemma {:induction false} DedupGrows(s: seq<nat>, skip: set<nat>, k: nat)
    requires k <= |s|
    ensures Dedup(s[..k], skip) <= Dedup(s, skip)
    decreases |s|
  {
    if k == |s| {
      assert s[..k] == s;
    } else {
      DedupGrows(s[..|s| - 1], skip, k);
      assert s[..|s| - 1][..k] == s[..k];
    }
  }

  lemma {:induction false} DistinctCount(d: seq<nat>, v: set<nat>)
    requires Distinct(d)
    requires forall x :: x in d <==> x in v
    ensures |d| == |v|
  {
    if d == [] {
      assert v == {};
    } else {
      var init, x := d[..|d| - 1], d[|d| - 1];
      forall y
        ensures y in init <==> y in v - {x}
      {
        assert y in d <==> y in init || y == x;
      }
      DistinctCount(init, v - {x});
    }
  }

  lemma {:induction false} SubsetSize(a: set<nat>, b: set<nat>)
    requires a <= b
    ensures |a| <= |b|
  {
    if a == {} {
    } else {
      var x :| x in a;
      SubsetSize(a - {x}, b - {x});
    }
  }

  /** Distinct elements that all occur in another sequence are no more than its distinct elements. */
  lemma SubsetCount(a: seq<nat>, b: seq<nat>)
    requires Distinct(a) && Distinct(b) && forall x :: x in a ==> x in b
    ensures |a| <= |b|
  {
    var sa, sb := set x | x in a, set x | x in b;
    DistinctCount(a, sa);
    DistinctCount(b, sb);
    SubsetSize(sa, sb);
  }
}

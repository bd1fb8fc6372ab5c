/** The consistent-hash ring of src/util/Cluster.cpp. The mixing function and the position of a key are parameters. */
module Ring {
  import opened Decimal

  type Mixing = nat -> nat

  /** Virtual points and their owners; std::map iterates it in ascending order of point. */
  type Points = map<nat, nat>

  const VIRTUAL_REPLICAS: nat := 160

  /** The n-th virtual point of a node: the mixer applied n times to its id. */
  function Iter(mix: Mixing, id: nat, n: nat): nat {
    if n == 0 then id else mix(Iter(mix, id, n - 1))
  }

  function PointsOf(mix: Mixing, id: nat, n: nat): set<nat> {
    set i | 1 <= i <= n :: Iter(mix, id, i)
  }

  /** addNodeToHash after n turns of its loop. */
  function Add(mix: Mixing, ring: Points, id: nat, n: nat): (r: Points)
    ensures forall q :: q in r <==> q in ring || q in PointsOf(mix, id, n)
    ensures forall q :: q in r ==> r[q] == if q in PointsOf(mix, id, n) then id else ring[q]
  {
    if n == 0 then ring else Add(mix, ring, id, n - 1)[Iter(mix, id, n) := id]
  }

  /** delNodeToHash after n turns of its loop. */
  function Remove(mix: Mixing, ring: Points, id: nat, n: nat): (r: Points)
    ensures forall q :: q in r <==> q in ring && q !in PointsOf(mix, id, n)
    ensures forall q :: q in r ==> r[q] == ring[q]
  {
    if n == 0 then ring else Remove(mix, ring, id, n - 1) - {Iter(mix, id, n)}
  }

  // ---- the owner of a position ----

  lemma {:induction false} FindMin(s: set<nat>) returns (m: nat)
    requires s != {}
    ensures m in s && forall x :: x in s ==> m <= x
  {
    m :| m in s;
    var rest := s - {m};
    assert forall x :: x in s ==> x == m || x in rest;
    if rest == {} {
    } else {
      var k := FindMin(rest);
      m := if m < k then m else k;
    }
  }

  lemma HasMin(s: set<nat>)
    requires s != {}
    ensures exists m :: m in s && forall x :: x in s ==> m <= x
  {
    var m := FindMin(s);
  }

  function MinOf(s: set<nat>): (m: nat)
    requires s != {}
    ensures m in s && forall x :: x in s ==> m <= x
  {
    HasMin(s);
    var m :| m in s && forall x :: x in s ==> m <= x;
    m
  }

  /** lower_bound, or the first point when there is none. */
  function Successor(keys: set<nat>, p: nat): (s: nat)
    requires keys != {}
    ensures s in keys
    ensures (s >= p && forall q :: q in keys && q >= p ==> s <= q) || (forall q :: q in keys ==> q < p && s <= q)
  {
    var up := set q | q in keys && q >= p;
    assert forall q :: q in keys && q >= p ==> q in up;
    if up != {} then MinOf(up) else MinOf(keys)
  }

  /** queryNode; on an empty ring the C++ code dereferences the end iterator. */
  function Owner(ring: Points, p: nat): nat
    requires ring != map[]
  {
    ring[Successor(ring.Keys, p)]
  }

  /** Steps clockwise from p to q around the 64-bit circle. */
  function Clockwise(p: nat, q: nat): nat
    requires p < U64 && q < U64
  {
    if q >= p then q - p else q + U64 - p
  }

  ghost predicate OnCircle(keys: set<nat>) {
    forall q :: q in keys ==> q < U64
  }

  /** The point lower_bound selects is the nearest one clockwise, and the only such point. */
  lemma SuccessorIsNearest(keys: set<nat>, p: nat, s: nat)
    requires keys != {} && OnCircle(keys) && p < U64
    ensures s == Successor(keys, p) <==> s in keys && forall q :: q in keys ==> Clockwise(p, s) <= Clockwise(p, q)
  {
    var t := Successor(keys, p);
    assert forall q :: q in keys ==> Clockwise(p, t) <= Clockwise(p, q);
    if s in keys && forall q :: q in keys ==> Clockwise(p, s) <= Clockwise(p, q) {
      assert Clockwise(p, s) <= Clockwise(p, t) <= Clockwise(p, s);
    }
  }

  // ---- minimal movement ----

  /** Adding a node to a non-empty ring: each position keeps its owner or goes to the new node, and it goes to the new
      node exactly when one of the new points is at least as near clockwise as every old point. */
  lemma AddMovesLittle(mix: Mixing, ring: Points, id: nat, p: nat)
    requires ring != map[] && OnCircle(ring.Keys) && p < U64
    requires OnCircle(PointsOf(mix, id, VIRTUAL_REPLICAS))
    ensures var ring' := Add(mix, ring, id, VIRTUAL_REPLICAS);
            && ring' != map[]
            && Owner(ring', p) == if exists x :: x in PointsOf(mix, id, VIRTUAL_REPLICAS)
                                                 && Clockwise(p, x) <= Clockwise(p, Successor(ring.Keys, p))
                                  then id else Owner(ring, p)
  {
    var pts := PointsOf(mix, id, VIRTUAL_REPLICAS);
    var ring' := Add(mix, ring, id, VIRTUAL_REPLICAS);
    var s := Successor(ring.Keys, p);
    assert s in ring';
    var s' := Successor(ring'.Keys, p);
    SuccessorIsNearest(ring.Keys, p, s);
    SuccessorIsNearest(ring'.Keys, p, s');
    if s' !in pts {
      SuccessorIsNearest(ring.Keys, p, s');
      forall x | x in pts
        ensures Clockwise(p, x) > Clockwise(p, s)
      {
        assert x in ring'.Keys;
        assert x != s';
      }
    } else {
      assert s in ring'.Keys;
    }
  }

  /** Removing a node whose points are all its own changes owners only where it was the owner. */
  lemma RemoveMovesLittle(mix: Mixing, ring: Points, id: nat, p: nat)
    requires OnCircle(ring.Keys) && p < U64 && Remove(mix, ring, id, VIRTUAL_REPLICAS) != map[]
    requires forall q :: q in ring && q in PointsOf(mix, id, VIRTUAL_REPLICAS) ==> ring[q] == id
    ensures ring != map[]
    ensures Owner(ring, p) != id ==> Owner(Remove(mix, ring, id, VIRTUAL_REPLICAS), p) == Owner(ring, p)
  {
    var ring' := Remove(mix, ring, id, VIRTUAL_REPLICAS);
    var x :| x in ring';
    assert x in ring;
    if Owner(ring, p) != id {
      var s := Successor(ring.Keys, p);
      SuccessorIsNearest(ring.Keys, p, s);
      SuccessorIsNearest(ring'.Keys, p, s);
    }
  }

  /** Deleting a node undoes its addition exactly when its points were fresh. */
  lemma RemoveUndoesAdd(mix: Mixing, ring: Points, id: nat)
    ensures Remove(mix, Add(mix, ring, id, VIRTUAL_REPLICAS), id, VIRTUAL_REPLICAS) == ring
       <==> PointsOf(mix, id, VIRTUAL_REPLICAS) !! ring.Keys
  {
    var r := Remove(mix, Add(mix, ring, id, VIRTUAL_REPLICAS), id, VIRTUAL_REPLICAS);
    var pts := PointsOf(mix, id, VIRTUAL_REPLICAS);
    if pts !! ring.Keys {
      assert r.Keys == ring.Keys;
    } else {
      var q :| q in pts && q in ring.Keys;
      assert q !in r;
    }
  }

  // ---- collisions ----

  ghost predicate Injective(mix: Mixing) {
    && (forall x: nat :: x < U64 ==> mix(x) < U64)
    && (forall x: nat, y: nat :: x < U64 && y < U64 && mix(x) == mix(y) ==> x == y)
  }

  lemma {:induction false} IterBound(mix: Mixing, id: nat, n: nat)
    requires Injective(mix) && id < U64
    ensures Iter(mix, id, n) < U64
  {
    if n == 0 {
    } else {
      IterBound(mix, id, n - 1);
    }
  }

  /** Equal points have equal predecessors. */
  lemma OneStepBack(mix: Mixing, a: nat, b: nat, i: nat, j: nat)
    requires Injective(mix) && a < U64 && b < U64 && Iter(mix, a, i + 1) == Iter(mix, b, j + 1)
    ensures Iter(mix, a, i) == Iter(mix, b, j)
  {
    IterBound(mix, a, i);
    IterBound(mix, b, j);
    var x, y := Iter(mix, a, i), Iter(mix, b, j);
    assert mix(x) == mix(y);
  }

  /** Two chains that meet were already on one chain. */
  lemma {:induction false} ChainsMeet(mix: Mixing, a: nat, b: nat, i: nat, j: nat)
    requires Injective(mix) && a < U64 && b < U64 && i <= j && Iter(mix, a, i) == Iter(mix, b, j)
    ensures a == Iter(mix, b, j - i)
    decreases i
  {
    if i == 0 {
    } else {
      OneStepBack(mix, a, b, i - 1, j - 1);
      ChainsMeet(mix, a, b, i - 1, j - 1);
    }
  }

  lemma {:induction false} IterAdd(mix: Mixing, b: nat, d: nat, i: nat)
    ensures Iter(mix, Iter(mix, b, d), i) == Iter(mix, b, d + i)
    decreases i
  {
    if i == 0 {
    } else {
      IterAdd(mix, b, d, i - 1);
    }
  }

  /** An id comes back to itself within fewer mixings than it has points. */
  ghost predicate ShortCycle(mix: Mixing, id: nat) {
    exists d :: 1 <= d < 160 && Iter(mix, id, d) == id
  }

  lemma PointsSnoc(mix: Mixing, id: nat, n: nat)
    ensures PointsOf(mix, id, n + 1) == PointsOf(mix, id, n) + {Iter(mix, id, n + 1)}
  {
  }

  /** Without a short cycle each point is new. */
  lemma NextPointIsNew(mix: Mixing, id: nat, n: nat)
    requires Injective(mix) && id < U64 && n < 160 && !ShortCycle(mix, id)
    ensures Iter(mix, id, n + 1) !in PointsOf(mix, id, n)
  {
    if Iter(mix, id, n + 1) in PointsOf(mix, id, n) {
      var i :| 1 <= i <= n && Iter(mix, id, i) == Iter(mix, id, n + 1);
      ChainsMeet(mix, id, id, i, n + 1);
    }
  }

  lemma {:induction false} DistinctPoints(mix: Mixing, id: nat, n: nat)
    requires Injective(mix) && id < U64 && n <= 160 && !ShortCycle(mix, id)
    ensures |PointsOf(mix, id, n)| == n
  {
    if n == 0 {
      assert PointsOf(mix, id, 0) == {};
    } else {
      DistinctPoints(mix, id, n - 1);
      PointsSnoc(mix, id, n - 1);
      NextPointIsNew(mix, id, n - 1);
    }
  }

  /** A node has 160 points of its own on the ring, unless the mixer takes its id back to itself before. */
  lemma PointCount(mix: Mixing, id: nat)
    requires Injective(mix) && id < U64
    ensures |PointsOf(mix, id, VIRTUAL_REPLICAS)| == 160 <==> !ShortCycle(mix, id)
  {
    if ShortCycle(mix, id) {
      var d :| 1 <= d < 160 && Iter(mix, id, d) == id;
      CyclePoints(mix, id, d);
      PointsAtMost(mix, id, 159);
    } else {
      DistinctPoints(mix, id, 160);
    }
  }

  /** On a short cycle the last point is an earlier one. */
  lemma CyclePoints(mix: Mixing, id: nat, d: nat)
    requires 1 <= d < 160 && Iter(mix, id, d) == id
    ensures PointsOf(mix, id, 160) == PointsOf(mix, id, 159)
  {
    IterAdd(mix, id, d, 160 - d);
    PointsSnoc(mix, id, 159);
    assert Iter(mix, id, 160) == Iter(mix, id, 160 - d);
    assert Iter(mix, id, 160 - d) in PointsOf(mix, id, 159);
  }

  lemma {:induction false} PointsAtMost(mix: Mixing, id: nat, n: nat)
    ensures |PointsOf(mix, id, n)| <= n
  {
    if n == 0 {
      assert PointsOf(mix, id, 0) == {};
    } else {
      PointsAtMost(mix, id, n - 1);
      PointsSnoc(mix, id, n - 1);
    }
  }

  /** One id is reached from the other by iterating the mixer fewer than 160 times. */
  ghost predicate Chained(mix: Mixing, a: nat, b: nat) {
    exists d :: 0 <= d < VIRTUAL_REPLICAS && (a == Iter(mix, b, d) || b == Iter(mix, a, d))
  }

  lemma ChainedCollides(mix: Mixing, a: nat, b: nat, d: nat)
    requires d < VIRTUAL_REPLICAS && a == Iter(mix, b, d)
    ensures !(PointsOf(mix, a, VIRTUAL_REPLICAS) !! PointsOf(mix, b, VIRTUAL_REPLICAS))
  {
    IterAdd(mix, b, d, 1);
    var q := Iter(mix, a, 1);
    assert q in PointsOf(mix, a, VIRTUAL_REPLICAS) && q in PointsOf(mix, b, VIRTUAL_REPLICAS);
  }

  lemma CollisionChained(mix: Mixing, a: nat, b: nat)
    requires Injective(mix) && a < U64 && b < U64
    requires !(PointsOf(mix, a, VIRTUAL_REPLICAS) !! PointsOf(mix, b, VIRTUAL_REPLICAS))
    ensures Chained(mix, a, b)
  {
    var q :| q in PointsOf(mix, a, VIRTUAL_REPLICAS) && q in PointsOf(mix, b, VIRTUAL_REPLICAS);
    var i :| 1 <= i <= VIRTUAL_REPLICAS && Iter(mix, a, i) == q;
    var j :| 1 <= j <= VIRTUAL_REPLICAS && Iter(mix, b, j) == q;
    if i <= j {
      ChainsMeet(mix, a, b, i, j);
    } else {
      ChainsMeet(mix, b, a, j, i);
    }
  }

  /** The virtual points of two nodes collide exactly when the ids are on one short chain of the mixer. */
  lemma CollisionIffChained(mix: Mixing, a: nat, b: nat)
    requires Injective(mix) && a < U64 && b < U64
    ensures !(PointsOf(mix, a, VIRTUAL_REPLICAS) !! PointsOf(mix, b, VIRTUAL_REPLICAS)) <==> Chained(mix, a, b)
  {
    if !(PointsOf(mix, a, VIRTUAL_REPLICAS) !! PointsOf(mix, b, VIRTUAL_REPLICAS)) {
      CollisionChained(mix, a, b);
    }
    if Chained(mix, a, b) {
      var d :| 0 <= d < VIRTUAL_REPLICAS && (a == Iter(mix, b, d) || b == Iter(mix, a, d));
      if a == Iter(mix, b, d) {
        ChainedCollides(mix, a, b, d);
      } else {
        ChainedCollides(mix, b, a, d);
      }
    }
  }
}

/** The ring with the program's own mixing function. */
module RingMixer {
  import opened Decimal
  import opened Mixer
  import opened Ring

  lemma MixStaysInRange()
    ensures forall x: nat :: Mix(x) < U64
  {
    forall x: nat
      ensures Mix(x) < U64
    {
      MixBound(x);
    }
  }

  lemma MixSeparates()
    ensures forall x: nat, y: nat :: x < U64 && y < U64 && Mix(x) == Mix(y) ==> x == y
  {
    forall x: nat, y: nat | x < U64 && y < U64 && Mix(x) == Mix(y)
      ensures x == y
    {
      MixInjective(x, y);
    }
  }

  lemma MixIsInjective()
    ensures Injective(Mix)
  {
    MixStaysInRange();
    MixSeparates();
  }

  /** With the program's own mixer: two nodes share a virtual point exactly when one id is reached from the other by
      iterating the mixer fewer than 160 times. */
  lemma VirtualPointsCollide(a: nat, b: nat)
    requires a < U64 && b < U64
    ensures !(PointsOf(Mix, a, VIRTUAL_REPLICAS) !! PointsOf(Mix, b, VIRTUAL_REPLICAS)) <==> Chained(Mix, a, b)
  {
    MixIsInjective();
    CollisionIffChained(Mix, a, b);
  }
}

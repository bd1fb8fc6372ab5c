/** The replica walk of Cluster::queryReplicas: clockwise from a key, collecting distinct owners. */
module Replicas {
  import opened Decimal
  import opened Sequences
  import opened Ring

  // ---- iteration order of the map ----

  /** The points in the order std::map iterates them. */
  function Sorted(keys: set<nat>): (s: seq<nat>)
    ensures |s| == |keys| && forall i :: 0 <= i < |s| ==> s[i] in keys
  {
    if keys == {} then []
    else
      var m := MinOf(keys);
      [m] + Sorted(keys - {m})
  }

  ghost predicate Ascending(s: seq<nat>) {
    forall i, j :: 0 <= i < j < |s| ==> s[i] < s[j]
  }

  lemma {:induction false} SortedAscending(keys: set<nat>)
    ensures Ascending(Sorted(keys))
  {
    if keys == {} {
    } else {
      var m := MinOf(keys);
      SortedAscending(keys - {m});
      var rest := Sorted(keys - {m});
      assert forall j :: 0 <= j < |rest| ==> rest[j] in keys && rest[j] != m;
    }
  }

  lemma {:induction false} SortedHas(keys: set<nat>, q: nat) returns (i: nat)
    requires q in keys
    ensures i < |Sorted(keys)| && Sorted(keys)[i] == q
  {
    var m := MinOf(keys);
    if q == m {
      i := 0;
    } else {
      var j := SortedHas(keys - {m}, q);
      i := j + 1;
    }
  }

  /** lower_bound as an index. */
  function FirstAtLeast(s: seq<nat>, p: nat): (i: nat)
    ensures i <= |s|
  {
    if s == [] || s[0] >= p then 0 else 1 + FirstAtLeast(s[1..], p)
  }

  lemma {:induction false} FirstAtLeastSpec(s: seq<nat>, p: nat, k: nat)
    requires k < |s|
    ensures k < FirstAtLeast(s, p) ==> s[k] < p
    ensures k == FirstAtLeast(s, p) ==> s[k] >= p
  {
    if k > 0 && s[0] < p {
      FirstAtLeastSpec(s[1..], p, k - 1);
    }
  }

  /** lower_bound, wrapped to the beginning when it is the end. */
  function Start(s: seq<nat>, p: nat): (i: nat)
    requires s != []
    ensures i < |s|
  {
    var i := FirstAtLeast(s, p);
    if i < |s| then i else 0
  }

  lemma StartIsSuccessor(keys: set<nat>, p: nat)
    requires keys != {}
    ensures Sorted(keys) != [] && Sorted(keys)[Start(Sorted(keys), p)] == Successor(keys, p)
  {
    var t := Successor(keys, p);
    var k := SortedHas(keys, t);
    var s := Sorted(keys);
    SortedAscending(keys);
    var i := FirstAtLeast(s, p);
    FirstAtLeastSpec(s, p, k);
    if i < |s| {
      FirstAtLeastSpec(s, p, i);
      assert s[i] in keys;
    } else {
      assert s[0] in keys;
      assert s[0] <= t;
    }
  }

  /** The owners of a sequence of points. */
  function OwnersOf(ring: Points, s: seq<nat>): (c: seq<nat>)
    requires forall i :: 0 <= i < |s| ==> s[i] in ring.Keys
    ensures |c| == |s| && forall i :: 0 <= i < |s| ==> c[i] == ring[s[i]]
  {
    seq(|s|, i requires 0 <= i < |s| => ring[s[i]])
  }

  /** The owners of all points, clockwise from position p. */
  function Clock(ring: Points, p: nat): (c: seq<nat>)
    requires ring != map[]
    ensures |c| == |ring| > 0
  {
    var s := Sorted(ring.Keys);
    OwnersOf(ring, s[Start(s, p)..]) + OwnersOf(ring, s[..Start(s, p)])
  }

  function Wrap(i: nat, n: nat): (r: nat)
    requires i < 2 * n
    ensures r < n
  {
    if i < n then i else i - n
  }

  lemma ClockAt(ring: Points, p: nat, k: nat)
    requires ring != map[] && k < |ring|
    ensures var s := Sorted(ring.Keys);
            Clock(ring, p)[k] == ring[s[Wrap(Start(s, p) + k, |s|)]]
  {
  }

  lemma ClockHasAllOwners(ring: Points, p: nat, x: nat)
    requires ring != map[]
    ensures x in Clock(ring, p) <==> x in ring.Values
  {
    var c := Clock(ring, p);
    if j :| 0 <= j < |c| && c[j] == x {
      ClockAt(ring, p, j);
    }
    if x in ring.Values {
      var q :| q in ring.Keys && ring[q] == x;
      var i := SortedHas(ring.Keys, q);
      var start := Start(Sorted(ring.Keys), p);
      ClockAt(ring, p, if i >= start then i - start else i + |c| - start);
    }
  }

  lemma ClockStartsAtOwner(ring: Points, p: nat)
    requires ring != map[]
    ensures Clock(ring, p)[0] == Owner(ring, p)
  {
    StartIsSuccessor(ring.Keys, p);
    ClockAt(ring, p, 0);
  }

  // ---- order of first appearance ----

  /** The replica order of a position: every owner once, clockwise by first appearance. */
  function Order(ring: Points, p: nat): seq<nat>
    requires ring != map[]
  {
    Dedup(Clock(ring, p), {})
  }

  lemma OrderIsAllOwners(ring: Points, p: nat)
    requires ring != map[]
    ensures forall x :: x in Order(ring, p) <==> x in ring.Values
    ensures |Order(ring, p)| == |ring.Values| <= |ring|
    ensures Order(ring, p) != [] && Order(ring, p)[0] == Owner(ring, p)
  {
    var c := Clock(ring, p);
    forall x
      ensures x in Dedup(c, {}) <==> x in ring.Values
    {
      DedupMembers(c, {}, x);
      ClockHasAllOwners(ring, p, x);
    }
    DedupDistinct(c, {});
    DistinctCount(Dedup(c, {}), ring.Values);
    ClockStartsAtOwner(ring, p);
    assert c[..1] == [c[0]];
    assert c[..1][..0] == [];
    DedupGrows(c, {}, 1);
  }

  // ---- the unbounded walk ----

  /** The walk around a circle of owners, k steps long. */
  function Cyclic(c: seq<nat>, k: nat): (w: seq<nat>)
    requires c != []
    ensures |w| == k && forall x :: x in w ==> x in c
  {
    if k == 0 then [] else Cyclic(c, k - 1) + [c[(k - 1) % |c|]]
  }

  lemma {:induction false} FirstTurn(c: seq<nat>, k: nat)
    requires c != [] && k <= |c|
    ensures Cyclic(c, k) == c[..k]
  {
    if k == 0 {
    } else {
      FirstTurn(c, k - 1);
      SmallMod(k - 1, |c|);
    }
  }

  lemma SmallMod(i: nat, n: nat)
    requires i < n
    ensures i % n == i
  {
  }

  /** Walking on never collects more than one turn does. */
  lemma NothingNew(c: seq<nat>, k: nat)
    requires c != []
    ensures |Dedup(Cyclic(c, k), {})| <= |Dedup(c, {})|
  {
    if k <= |c| {
      FirstTurn(c, k);
      DedupGrows(c, {}, k);
    } else {
      DedupDistinct(c, {});
      DedupDistinct(Cyclic(c, k), {});
      forall x | x in Dedup(Cyclic(c, k), {})
        ensures x in Dedup(c, {})
      {
        DedupMembers(Cyclic(c, k), {}, x);
        DedupMembers(c, {}, x);
      }
      SubsetCount(Dedup(Cyclic(c, k), {}), Dedup(c, {}));
    }
  }

  // ---- when the loop ends ----

  /** static_cast<size_t>(N). */
  function Limit(n: int): nat {
    if n < 0 then n % U64 else n
  }

  /** The loop has stopped after k steps: enough replicas, or as many owners as points. */
  predicate Stopped(c: seq<nat>, limit: nat, k: nat)
    requires c != []
  {
    var d := |Dedup(Cyclic(c, k), {})|;
    d >= limit || (k > 0 && d >= |c|)
  }

  /** The loop ends exactly when the ring has enough distinct owners, or when every point has its own owner. */
  lemma HaltsExactlyWhen(ring: Points, p: nat, limit: nat)
    requires ring != map[]
    ensures (exists k :: Stopped(Clock(ring, p), limit, k)) <==> |ring.Values| >= limit || |ring.Values| == |ring|
  {
    var c := Clock(ring, p);
    OrderIsAllOwners(ring, p);
    FirstTurn(c, |c|);
    assert c[..|c|] == c;
    assert |ring.Values| >= limit || |ring.Values| == |ring| ==> Stopped(c, limit, |c|);
    forall k: nat
      ensures Stopped(c, limit, k) ==> |ring.Values| >= limit || |ring.Values| == |ring|
    {
      NothingNew(c, k);
    }
  }

  /** A negative number of replicas asks for more than any ring has, so only a ring without a repeated owner ends the
      loop. */
  lemma NegativeCount(ring: Points, p: nat, n: int)
    requires ring != map[] && -0x8000_0000 <= n < 0 && |ring.Values| < 0x8000_0000_0000_0000
    ensures (exists k :: Stopped(Clock(ring, p), Limit(n), k)) <==> |ring.Values| == |ring|
  {
    HaltsExactlyWhen(ring, p, Limit(n));
    assert Limit(n) == 0x1_0000_0000_0000_0000 + n;
  }

  /** queryReplicas. On a ring where the loop can end it returns the first N owners in clockwise order of first
      appearance, the first being the node queryNode returns. */
  method QueryReplicas(ring: Points, self: nat, p: nat, n: int) returns (result: seq<nat>)
    requires ring != map[] ==> |ring.Values| >= Limit(n) || |ring.Values| == |ring|
    ensures ring == map[] ==> result == [self]
    ensures ring != map[] ==>
              && result <= Order(ring, p)
              && |result| == (if Limit(n) <= |ring.Values| then Limit(n) else |ring.Values|)
    ensures ring != map[] && n > 0 ==> result != [] && result[0] == Owner(ring, p)
  {
    if ring == map[] {
      return [self];
    }
    OrderIsAllOwners(ring, p);
    result := Collect(ring, p, Limit(n));
  }

  /** The loop of queryReplicas. */
  method Collect(ring: Points, p: nat, limit: nat) returns (result: seq<nat>)
    requires ring != map[]
    requires |Order(ring, p)| >= limit || |Order(ring, p)| == |ring|
    ensures result <= Order(ring, p)
    ensures |result| == if limit <= |Order(ring, p)| then limit else |Order(ring, p)|
  {
    var points := Sorted(ring.Keys);
    var it := Start(points, p);
    ghost var c, start, k := Clock(ring, p), it, 0;
    result := [];
    var seen: set<nat> := {};
    while |result| < limit
      invariant k <= |c| && (k < |c| ==> it == Wrap(start + k, |c|))
      invariant result == Dedup(c[..k], {}) && result <= Dedup(c, {})
      invariant |result| <= limit && SeenIs(seen, result)
      invariant |result| < |c|
      decreases |c| - k
    {
      TurnNotOver(c, k, limit);
      seen, result := VisitAt(ring, p, points, it, seen, result, k);
      it := if it + 1 == |points| then 0 else it + 1;
      k := k + 1;
      if |seen| >= |ring| {
        break;
      }
    }
  }

  /** The set of owners seen is the set of owners collected. */
  ghost predicate SeenIs(seen: set<nat>, result: seq<nat>) {
    |seen| == |result| && forall x :: x in seen <==> x in result
  }

  /** if (seen.insert(owner).second) result.push_back(owner). */
  method Visit(owner: nat, seen: set<nat>, result: seq<nat>) returns (seen': set<nat>, result': seq<nat>)
    requires SeenIs(seen, result)
    ensures SeenIs(seen', result')
    ensures result' == if owner in result then result else result + [owner]
  {
    seen', result' := seen, result;
    if owner !in seen {
      seen' := seen + {owner};
      result' := result + [owner];
    }
  }

  /** The owner of the point at the iterator, which is k steps on from the key's. */
  method VisitAt(ring: Points, ghost p: nat, points: seq<nat>, it: nat, seen: set<nat>, result: seq<nat>, ghost k: nat)
    returns (seen': set<nat>, result': seq<nat>)
    requires ring != map[] && points == Sorted(ring.Keys) && k < |Clock(ring, p)|
    requires it == Wrap(Start(points, p) + k, |points|)
    requires SeenIs(seen, result) && result == Dedup(Clock(ring, p)[..k], {})
    ensures SeenIs(seen', result') && result' == Dedup(Clock(ring, p)[..k + 1], {}) && |result'| <= |result| + 1
    ensures result' <= Dedup(Clock(ring, p), {})
  {
    ClockAt(ring, p, k);
    var owner := ring[points[it]];
    ghost var next := OneMore(Clock(ring, p), k, result, owner);
    seen', result' := Visit(owner, seen, result);
    assert result' == next;
  }

  lemma OneMore(c: seq<nat>, k: nat, d: seq<nat>, x: nat) returns (next: seq<nat>)
    requires k < |c| && d == Dedup(c[..k], {}) && x == c[k]
    ensures next == if x in d then d else d + [x]
    ensures next == Dedup(c[..k + 1], {}) && next <= Dedup(c, {})
  {
    next := Dedup(c[..k + 1], {});
    assert c[..k + 1][..k] == c[..k];
    DedupGrows(c, {}, k + 1);
  }

  /** After a whole turn everything has been collected. */
  lemma TurnNotOver(c: seq<nat>, k: nat, limit: nat)
    requires k <= |c| && |Dedup(c[..k], {})| < limit && |Dedup(c[..k], {})| < |c|
    requires |Dedup(c, {})| >= limit || |Dedup(c, {})| == |c|
    ensures k < |c|
  {
    assert c[..|c|] == c;
  }
}

/** Rings that the program builds and on which the replica walk never ends. */
module ReplicaRings {
  import Sequences
  import opened Decimal
  import opened Mixer
  import opened Ring
  import opened RingMixer
  import opened Replicas

  /** The first two virtual points of a node differ unless the mixer maps its id to itself. */
  lemma TwoPoints(mix: Mixing, id: nat)
    requires Injective(mix) && id < U64 && mix(id) != id
    ensures Iter(mix, id, 1) != Iter(mix, id, 2)
    ensures {Iter(mix, id, 1), Iter(mix, id, 2)} <= PointsOf(mix, id, VIRTUAL_REPLICAS)
  {
    assert Iter(mix, id, 0) == id && Iter(mix, id, 1) == mix(id);
    assert Iter(mix, id, 2) == mix(Iter(mix, id, 1));
  }

  /** A node that has just been added owns all its points, so the ring has more points than owners. */
  lemma MorePointsThanOwners(mix: Mixing, ring: Points, id: nat)
    requires Injective(mix) && id < U64 && mix(id) != id
    ensures var r := Add(mix, ring, id, VIRTUAL_REPLICAS); r != map[] && |r.Values| < |r|
  {
    var r := Add(mix, ring, id, VIRTUAL_REPLICAS);
    TwoPoints(mix, id);
    var x, y := Iter(mix, id, 1), Iter(mix, id, 2);
    assert x in r && y in r && r[x] == id && r[y] == id;
    var rest := r - {x};
    FewerValues(rest);
    assert r.Values == rest.Values by {
      assert rest[y] == id;
      forall v | v in r.Values
        ensures v in rest.Values
      {
        var q :| q in r && r[q] == v;
        assert q != x ==> q in rest && rest[q] == v;
      }
    }
    assert |rest| == |rest.Keys| && rest.Keys == r.Keys - {x} && |r.Keys| == |r|;
  }

  lemma {:induction false} FewerValues(m: Points)
    ensures |m.Values| <= |m|
    decreases |m|
  {
    if m == map[] {
      assert m.Values == {};
    } else {
      var k :| k in m;
      var rest := m - {k};
      assert rest.Keys == m.Keys - {k} && |rest| == |rest.Keys| && |m| == |m.Keys|;
      FewerValues(rest);
      assert m.Values <= rest.Values + {m[k]} by {
        forall v | v in m.Values
          ensures v in rest.Values + {m[k]}
        {
          var q :| q in m && m[q] == v;
          assert q != k ==> q in rest && rest[q] == v;
        }
      }
      Sequences.SubsetSize(m.Values, rest.Values + {m[k]});
    }
  }

  /** Whenever more replicas are asked for than the ring has owners, right after a node was added, the walk goes on for
      ever. */
  lemma WalkNeverStops(mix: Mixing, ring: Points, id: nat, p: nat, limit: nat, k: nat)
    requires Injective(mix) && id < U64 && mix(id) != id
    requires |Add(mix, ring, id, VIRTUAL_REPLICAS).Values| < limit
    ensures var r := Add(mix, ring, id, VIRTUAL_REPLICAS); r != map[] && !Stopped(Clock(r, p), limit, k)
  {
    var r := Add(mix, ring, id, VIRTUAL_REPLICAS);
    MorePointsThanOwners(mix, ring, id);
    HaltsExactlyWhen(r, p, limit);
  }

  lemma {:induction false} OneOwner(mix: Mixing, id: nat, n: nat)
    requires n > 0
    ensures Add(mix, map[], id, n).Values == {id}
  {
    var r := Add(mix, map[], id, n);
    assert Iter(mix, id, 1) in PointsOf(mix, id, n);
    assert r[Iter(mix, id, 1)] == id;
  }

  lemma {:induction false} FixedPoint(mix: Mixing, id: nat, i: nat)
    requires mix(id) == id
    ensures Iter(mix, id, i) == id
  {
    if i == 0 {
    } else {
      FixedPoint(mix, id, i - 1);
    }
  }

  lemma OnePoint(mix: Mixing, id: nat)
    requires mix(id) == id
    ensures Add(mix, map[], id, VIRTUAL_REPLICAS).Keys == {id}
  {
    var r := Add(mix, map[], id, VIRTUAL_REPLICAS);
    assert Iter(mix, id, 1) in PointsOf(mix, id, VIRTUAL_REPLICAS);
    forall q | q in PointsOf(mix, id, VIRTUAL_REPLICAS)
      ensures q == id
    {
      var i: nat :| 1 <= i <= VIRTUAL_REPLICAS && q == Iter(mix, id, i);
      FixedPoint(mix, id, i);
    }
    FixedPoint(mix, id, 1);
  }

  /** The ring of one node: the walk for two or more replicas ends if and only if the mixer maps its id to itself. */
  lemma LoneRing(mix: Mixing, id: nat, p: nat, limit: nat)
    requires Injective(mix) && id < U64 && limit >= 2
    ensures var r := Add(mix, map[], id, VIRTUAL_REPLICAS);
            r != map[] && ((exists k :: Stopped(Clock(r, p), limit, k)) <==> mix(id) == id)
  {
    var r := Add(mix, map[], id, VIRTUAL_REPLICAS);
    OneOwner(mix, id, VIRTUAL_REPLICAS);
    assert Iter(mix, id, 1) in PointsOf(mix, id, VIRTUAL_REPLICAS);
    HaltsExactlyWhen(r, p, limit);
    if mix(id) == id {
      OnePoint(mix, id);
      assert |r| == |r.Keys|;
    } else {
      MorePointsThanOwners(mix, map[], id);
    }
  }

  /** With the mixer of the program, on a cluster of one node. */
  lemma LoneNodeWalk(id: nat, p: nat, n: int)
    requires id < U64 && n >= 2
    ensures var r := Add(Mix, map[], id, VIRTUAL_REPLICAS);
            r != map[] && ((exists k :: Stopped(Clock(r, p), Limit(n), k)) <==> Mix(id) == id)
  {
    MixIsInjective();
    LoneRing(Mix, id, p, Limit(n));
  }
}

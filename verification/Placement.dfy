/** Raft group placement (src/server/Server.cpp, initRaftGroups): N nodes in id order, group g made of the nodes at
    g, g + 1 and g + 2 modulo N. */
module Placement {
  import Ring
  import ClusterClass
  import opened Decimal
  import opened Sequences

  /** What one node computes: the peers of each group it takes part in, the member lists, and each master's group. */
  datatype Groups = Groups(peers: map<nat, seq<nat>>, members: map<nat, seq<nat>>, masterToGroup: map<nat, nat>)

  const GROUP_SIZE := 3

  // ---- modular arithmetic ----

  /** (g + j) % n, for j below the group size. */
  function Shift(g: nat, j: nat, n: nat): (i: nat)
    requires g < n && j < GROUP_SIZE
    ensures i < n
  {
    (g + j) % n
  }

  lemma ShiftCases(g: nat, j: nat, n: nat)
    requires g < n && j < GROUP_SIZE
    ensures Shift(g, j, n) == if g + j < n then g + j else if g + j < 2 * n then g + j - n else g + j - 2 * n
  {
    ModCases(g + j, n);
  }

  lemma ModCases(x: nat, n: nat)
    requires 0 < n && x < 3 * n
    ensures x % n == if x < n then x else if x < 2 * n then x - n else x - 2 * n
  {
    if x >= 2 * n {
      assert x == (x - 2 * n) + n * 2;
      ModAdd(x - 2 * n, n, 2);
    } else if x >= n {
      ModAdd(x - n, n, 1);
    } else {
      ModAdd(x, n, 0);
    }
  }

  lemma ModAdd(r: nat, n: nat, q: nat)
    requires r < n
    ensures (r + n * q) % n == r
  {
    var x := r + n * q;
    var d := x / n;
    assert x == d * n + x % n;
    assert d > q ==> d * n >= (q + 1) * n;
    assert d < q ==> d * n <= (q - 1) * n;
  }

  /** (selfIdx + offset + N) % N on size_t, where offset is the negated step. */
  function Back(i: nat, step: nat, n: nat): (g: nat)
    requires i < n && step < GROUP_SIZE
    ensures g < n
  {
    (i + (U64 - step) % U64 + n) % U64 % n
  }

  /** The group found by going back is the one whose shift leads here again, even when the unsigned sum wraps. */
  lemma BackShift(i: nat, step: nat, n: nat, g: nat)
    requires i < n && step < GROUP_SIZE && g < n && 3 * n < U64
    ensures Back(i, step, n) == g <==> Shift(g, step, n) == i
  {
    ShiftCases(g, step, n);
    BackCases(i, step, n);
  }

  lemma BackCases(i: nat, step: nat, n: nat)
    requires i < n && step < GROUP_SIZE && 3 * n < U64
    ensures Back(i, step, n) == if i >= step then i - step else if i + n >= step then i + n - step else i + 2 * n - step
  {
    if i + n >= step {
      assert (i + (U64 - step) % U64 + n) % U64 == i + n - step;
      ModCases(i + n - step, n);
    } else {
      assert n == 1;
    }
  }

  // ---- one group ----

  /** The members of group g before removing repetitions. */
  function RawMembers(ids: seq<nat>, g: nat): (m: seq<nat>)
    requires g < |ids|
    ensures |m| == GROUP_SIZE
  {
    [ids[Shift(g, 0, |ids|)], ids[Shift(g, 1, |ids|)], ids[Shift(g, 2, |ids|)]]
  }

  function Members(ids: seq<nat>, g: nat): seq<nat>
    requires g < |ids|
  {
    Dedup(RawMembers(ids, g), {})
  }

  function Peers(ids: seq<nat>, g: nat, self: nat): seq<nat>
    requires g < |ids|
  {
    Dedup(RawMembers(ids, g), {self})
  }

  /** The groups a node creates. */
  function GroupsOf(i: nat, n: nat): set<nat>
    requires i < n
  {
    {Back(i, 0, n), Back(i, 1, n), Back(i, 2, n)}
  }

  /** A node is a member of a group exactly when it creates that group. */
  lemma MemberIffCreates(ids: seq<nat>, i: nat, g: nat)
    requires Distinct(ids) && i < |ids| && g < |ids| && 3 * |ids| < U64
    ensures ids[i] in Members(ids, g) <==> g in GroupsOf(i, |ids|)
  {
    var n := |ids|;
    DedupMembers(RawMembers(ids, g), {}, ids[i]);
    forall j: nat | j < GROUP_SIZE
      ensures ids[Shift(g, j, n)] == ids[i] <==> Back(i, j, n) == g
    {
      BackShift(i, j, n, g);
    }
    assert ids[i] in RawMembers(ids, g) <==>
           ids[i] == ids[Shift(g, 0, n)] || ids[i] == ids[Shift(g, 1, n)] || ids[i] == ids[Shift(g, 2, n)];
  }

  /** Peer relations are symmetric: b is a peer of a in a group exactly when a is a peer of b there, and then both
      create the group. */
  lemma PeersSymmetric(ids: seq<nat>, i: nat, j: nat, g: nat)
    requires Distinct(ids) && i < |ids| && j < |ids| && 3 * |ids| < U64 && g in GroupsOf(i, |ids|)
    ensures ids[j] in Peers(ids, g, ids[i]) <==>
              g in GroupsOf(j, |ids|) && ids[i] in Peers(ids, g, ids[j])
    ensures ids[j] in Peers(ids, g, ids[i]) <==> i != j && ids[j] in Members(ids, g)
  {
    MemberIffCreates(ids, i, g);
    MemberIffCreates(ids, j, g);
    var raw := RawMembers(ids, g);
    DedupMembers(raw, {ids[i]}, ids[j]);
    DedupMembers(raw, {ids[j]}, ids[i]);
    DedupMembers(raw, {}, ids[i]);
    DedupMembers(raw, {}, ids[j]);
  }

  /** Each node is in exactly three groups, or as many as there are nodes, and is master (first node) of exactly one. */
  lemma ThreeGroupsOneMaster(ids: seq<nat>, i: nat, g: nat)
    requires Distinct(ids) && i < |ids| && 3 * |ids| < U64 && g < |ids|
    ensures |GroupsOf(i, |ids|)| == (if |ids| < 3 then |ids| else 3) && i in GroupsOf(i, |ids|)
    ensures ids[g] == ids[i] <==> g == i
  {
    var n := |ids|;
    BackCases(i, 0, n);
    BackCases(i, 1, n);
    BackCases(i, 2, n);
    var a, b, c := Back(i, 0, n), Back(i, 1, n), Back(i, 2, n);
    if n == 1 {
      assert GroupsOf(i, n) == {a};
    } else if n == 2 {
      assert GroupsOf(i, n) == {a} + {b};
    } else {
      assert GroupsOf(i, n) == {a} + {b} + {c};
      assert a != b && b != c && a != c;
      assert |{a} + {b}| == 2;
    }
  }

  lemma DedupThree(a: nat, b: nat, c: nat)
    ensures Dedup([a, b, c], {}) == (if b == a then [a] else [a, b]) + (if c == a || c == b then [] else [c])
  {
    assert [a, b, c][..2] == [a, b] && [a, b][..1] == [a] && [a][..0] == [];
    assert Dedup([a], {}) == [a];
    assert Dedup([a, b], {}) == if b == a then [a] else [a, b];
  }

  /** The size of a group: three members from three nodes on, otherwise all nodes. */
  lemma GroupSize(ids: seq<nat>, g: nat)
    requires Distinct(ids) && g < |ids|
    ensures |Members(ids, g)| == if |ids| < 3 then |ids| else 3
  {
    var n, raw := |ids|, RawMembers(ids, g);
    ShiftCases(g, 0, n);
    ShiftCases(g, 1, n);
    ShiftCases(g, 2, n);
    DedupThree(raw[0], raw[1], raw[2]);
  }

  /** Groups overlap in the order of the ids: the first member of a group is its master, and the others are, in order,
      the first members of the next group. */
  lemma GroupsInOrder(ids: seq<nat>, g: nat)
    requires Distinct(ids) && g < |ids| && |ids| >= 2
    ensures var next := if g == |ids| - 1 then 0 else g + 1;
            var m, m' := Members(ids, g), Members(ids, next);
            && |m| == |m'| && m != [] && m[0] == ids[g]
            && forall k :: 1 <= k < |m| ==> m[k] == m'[k - 1]
  {
    var n := |ids|;
    var next := if g == n - 1 then 0 else g + 1;
    MembersAt(ids, g);
    MembersAt(ids, next);
    var m, m' := Members(ids, g), Members(ids, next);
    assert |m| == |m'| && m[0] == ids[g] && m[1] == m'[0];
    if n > 2 {
      assert m[2] == m'[1];
    }
  }

  lemma MembersAt(ids: seq<nat>, g: nat)
    requires Distinct(ids) && g < |ids| && |ids| >= 2
    ensures var n := |ids|;
            Members(ids, g) == if n == 2 then [ids[g], ids[1 - g]]
                               else [ids[g], ids[if g + 1 < n then g + 1 else 0],
                                     ids[if g + 2 < n then g + 2 else g + 2 - n]]
  {
    var n := |ids|;
    var i, j := if g + 1 < n then g + 1 else 0, if g + 2 < n then g + 2 else g + 2 - n;
    ShiftCases(g, 0, n);
    ShiftCases(g, 1, n);
    ShiftCases(g, 2, n);
    assert RawMembers(ids, g) == [ids[g], ids[i], ids[j]];
    DedupThree(ids[g], ids[i], ids[j]);
    assert i != g && ids[i] != ids[g];
    assert n > 2 ==> j != g && j != i && ids[j] != ids[g] && ids[j] != ids[i];
  }

  // ---- the whole computation ----

  /** The index of a node id; 0 when it is not in the topology. */
  method FindSelf(ids: seq<nat>, self: nat) returns (i: nat)
    ensures self in ids ==> i < |ids| && ids[i] == self
    ensures self !in ids ==> i == 0
  {
    for k := 0 to |ids|
      invariant self !in ids[..k]
    {
      if ids[k] == self { return k; }
    }
    i := 0;
  }

  /** The loop that builds a member or peer list. */
  method Collect(m: seq<nat>, skip: set<nat>) returns (d: seq<nat>)
    ensures d == Dedup(m, skip)
  {
    d := [];
    var seen: set<nat> := {};
    for k := 0 to |m|
      invariant d == Dedup(m[..k], skip) && forall x :: x in seen <==> x in d
    {
      assert m[..k + 1][..k] == m[..k];
      if m[k] !in skip && m[k] !in seen {
        seen := seen + {m[k]};
        d := d + [m[k]];
      }
    }
    assert m[..|m|] == m;
  }

  /** initRaftGroups on the node ids of the topology, in ascending order. An empty topology leaves things as they
      are; a node that is not in the topology acts for index 0. */
  method InitRaftGroups(cluster: ClusterClass.Cluster, ids: seq<nat>, self: nat, current: Groups) returns (r: Groups)
    requires Distinct(ids) && 3 * |ids| < U64
    modifies cluster
    ensures ids == [] ==> r == current
    ensures cluster.nodeHash == OnRing(cluster.mix, old(cluster.nodeHash), ids)
    ensures self in ids ==> exists i :: 0 <= i < |ids| && ids[i] == self && Placed(r, ids, i)
    ensures ids != [] && self !in ids ==> PlacedFor(r, ids, self, GroupsOf(0, |ids|))
  {
    var n := |ids|;
    if n == 0 { return current; }
    var selfIdx := FindSelf(ids, self);
    AddAllToHash(cluster, ids);
    var a, b, c := Back(selfIdx, 0, n), Back(selfIdx, 1, n), Back(selfIdx, 2, n);
    r := BuildGroups(ids, self, [a, b, c]);
    SetOfThree(a, b, c);
    assert PlacedFor(r, ids, self, GroupsOf(selfIdx, n));
  }

  /** The ring once every node of the topology is on it; a point that two nodes share belongs to the later one. */
  function OnRing(mix: Ring.Mixing, ring: Ring.Points, ids: seq<nat>): (r: Ring.Points)
    ensures forall q :: q in r <==> q in ring || exists k :: 0 <= k < |ids| && q in NodePoints(mix, ids[k])
    ensures forall q :: q in r ==> (q in ring && r[q] == ring[q]) || HasPoint(mix, ids, r[q], q)
  {
    if ids == [] then ring
    else Ring.Add(mix, OnRing(mix, ring, ids[..|ids| - 1]), ids[|ids| - 1], Ring.VIRTUAL_REPLICAS)
  }

  function NodePoints(mix: Ring.Mixing, id: nat): set<nat> {
    Ring.PointsOf(mix, id, Ring.VIRTUAL_REPLICAS)
  }

  ghost predicate HasPoint(mix: Ring.Mixing, ids: seq<nat>, id: nat, q: nat) {
    id in ids && q in NodePoints(mix, id)
  }

  method AddAllToHash(cluster: ClusterClass.Cluster, ids: seq<nat>)
    modifies cluster
    ensures cluster.nodeHash == OnRing(cluster.mix, old(cluster.nodeHash), ids)
  {
    for k := 0 to |ids|
      invariant cluster.nodeHash == OnRing(cluster.mix, old(cluster.nodeHash), ids[..k])
    {
      assert ids[..k + 1][..k] == ids[..k];
      cluster.AddNodeToHash(ids[k]);
    }
    assert ids[..|ids|] == ids;
  }

  function SetOf(gs: seq<nat>): set<nat> {
    set g | g in gs
  }

  lemma SetOfThree(a: nat, b: nat, c: nat)
    ensures SetOf([a, b, c]) == {a, b, c}
  {
  }

  lemma SetOfSnoc(gs: seq<nat>, k: nat)
    requires k < |gs|
    ensures SetOf(gs[..k + 1]) == SetOf(gs[..k]) + {gs[k]}
  {
    assert gs[..k + 1] == gs[..k] + [gs[k]];
  }

  /** The loop body of initRaftGroups, for each group index in turn. */
  method BuildGroups(ids: seq<nat>, self: nat, gs: seq<nat>) returns (r: Groups)
    requires Distinct(ids) && forall k :: 0 <= k < |gs| ==> gs[k] < |ids|
    ensures PlacedFor(r, ids, self, SetOf(gs))
  {
    r := Groups(map[], map[], map[]);
    for k := 0 to |gs|
      invariant PlacedFor(r, ids, self, SetOf(gs[..k]))
    {
      var g := gs[k];
      var members := RawMembers(ids, g);
      var peers := Collect(members, {self});
      var dedup := Collect(members, {});
      SetOfSnoc(gs, k);
      AddPeers(r.peers, ids, self, SetOf(gs[..k]), g, peers);
      AddMembers(r.members, ids, SetOf(gs[..k]), g, dedup);
      AddMaster(r.masterToGroup, ids, SetOf(gs[..k]), g);
      r := Groups(if g in r.peers then r.peers else r.peers[g := peers],
                  r.members[g := dedup],
                  r.masterToGroup[ids[g] := g]);
    }
    assert gs[..|gs|] == gs;
  }

  /** The three maps describe exactly the groups made so far. */
  ghost predicate PlacedFor(r: Groups, ids: seq<nat>, self: nat, made: set<nat>) {
    PeersOk(r.peers, ids, self, made) && MembersOk(r.members, ids, made) && MastersOk(r.masterToGroup, ids, made)
  }

  ghost predicate PeersOk(m: map<nat, seq<nat>>, ids: seq<nat>, self: nat, made: set<nat>) {
    m.Keys == made && forall g {:trigger m[g]} :: g in made ==> g < |ids| && m[g] == Peers(ids, g, self)
  }

  ghost predicate MembersOk(m: map<nat, seq<nat>>, ids: seq<nat>, made: set<nat>) {
    m.Keys == made && forall g {:trigger m[g]} :: g in made ==> g < |ids| && m[g] == Members(ids, g)
  }

  lemma AddPeers(m: map<nat, seq<nat>>, ids: seq<nat>, self: nat, made: set<nat>, g: nat, p: seq<nat>)
    requires g < |ids| && p == Peers(ids, g, self) && PeersOk(m, ids, self, made)
    ensures PeersOk(if g in m then m else m[g := p], ids, self, made + {g})
  {
    if g in m { assert made + {g} == made; }
  }

  lemma AddMembers(m: map<nat, seq<nat>>, ids: seq<nat>, made: set<nat>, g: nat, p: seq<nat>)
    requires g < |ids| && p == Members(ids, g) && MembersOk(m, ids, made)
    ensures MembersOk(m[g := p], ids, made + {g})
  {
  }

  ghost predicate MastersOk(m: map<nat, nat>, ids: seq<nat>, made: set<nat>) {
    && (forall g :: g in made ==> g < |ids| && ids[g] in m && m[ids[g]] == g)
    && (forall id {:trigger m[id]} :: id in m ==> m[id] in made)
  }

  lemma AddMaster(m: map<nat, nat>, ids: seq<nat>, made: set<nat>, g: nat)
    requires Distinct(ids) && g < |ids| && MastersOk(m, ids, made)
    ensures MastersOk(m[ids[g] := g], ids, made + {g})
  {
    assert forall x :: x in made && x != g ==> ids[x] != ids[g];
  }

  ghost predicate Placed(r: Groups, ids: seq<nat>, i: nat)
    requires i < |ids|
  {
    PlacedFor(r, ids, ids[i], GroupsOf(i, |ids|))
  }

  /** Nodes sharing a topology agree: any group both of them create has the same member list and the same master, the
      node itself is a member of it, and each is the other's peer there when they differ. */
  lemma NodesAgree(ids: seq<nat>, i: nat, j: nat, ri: Groups, rj: Groups, g: nat)
    requires Distinct(ids) && i < |ids| && j < |ids| && 3 * |ids| < U64
    requires Placed(ri, ids, i) && Placed(rj, ids, j) && g in ri.members && g in rj.members
    ensures ri.members[g] == rj.members[g] && ids[i] in ri.members[g] && Distinct(ri.members[g])
    ensures ids[g] in ri.masterToGroup && ids[g] in rj.masterToGroup
    ensures ri.masterToGroup[ids[g]] == rj.masterToGroup[ids[g]]
    ensures i != j ==> ids[j] in ri.peers[g] && ids[i] in rj.peers[g]
  {
    MemberIffCreates(ids, i, g);
    MemberIffCreates(ids, j, g);
    PeersSymmetric(ids, i, j, g);
    PeersSymmetric(ids, j, i, g);
    DedupDistinct(RawMembers(ids, g), {});
  }
}

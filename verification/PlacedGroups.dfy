/** Placement meets the protocol: the Raft groups that initRaftGroups creates are groups the protocol theorems cover. */
module PlacedGroups {
  import opened Sequences
  import opened Raft
  import opened RaftGroup
  import opened ElectionSafety
  import opened LogMatching
  import opened GroupRuns
  import opened ElectionLimits
  import opened LogLimits
  import opened ReplySafety
  import opened ReplyLimits
  import opened Placement

  /** Group g as its members construct it, each with the peers it computed for itself. */
  function GroupAt(ids: seq<nat>, g: nat): Group
    requires g < |ids|
  {
    Group(map id | id in Members(ids, g) :: Fresh(id, Peers(ids, g, id)), {}, multiset{}, {}, map[])
  }

  /** From two nodes on, each placed group is a proper initial group of two or three members, fully connected. */
  lemma PlacedGroupIsInitial(ids: seq<nat>, g: nat)
    requires Distinct(ids) && 2 <= |ids| && g < |ids|
    ensures Init(GroupAt(ids, g)) && Mesh(GroupAt(ids, g)) && DistinctPeers(GroupAt(ids, g))
    ensures |GroupAt(ids, g).nodes| == if |ids| < 3 then |ids| else 3
  {
    var s, raw, members := GroupAt(ids, g), RawMembers(ids, g), Members(ids, g);
    GroupSize(ids, g);
    DedupDistinct(raw, {});
    DistinctCount(members, s.nodes.Keys);
    forall id | id in s.nodes
      ensures s.nodes[id] == Fresh(id, s.nodes[id].peers) && s.nodes[id].peers != [] && RaftGroup.PeersOk(s, id)
    {
      forall p | p in Peers(ids, g, id)
        ensures p in s.nodes && p != id
      {
        DedupMembers(raw, {id}, p);
        DedupMembers(raw, {}, p);
      }
      var other := if members[0] == id then members[1] else members[0];
      assert other in members && other != id;
      DedupMembers(raw, {}, other);
      DedupMembers(raw, {id}, other);
    }
    forall id | id in s.nodes
      ensures Distinct(s.nodes[id].peers)
    {
      DedupDistinct(raw, {id});
    }
    forall a, b | a in s.nodes && b in s.nodes && a != b
      ensures b in s.nodes[a].peers
    {
      DedupMembers(raw, {}, b);
      DedupMembers(raw, {a}, b);
    }
  }

  /** Hence in every run of every placed group in which votes are counted in their own term, a term has one leader. If
      besides only leaders run the second section of propose, equal labels mean equal commands; and if success replies
      are counted in their own term too, no leader ever reads beyond its log. */
  lemma PlacedGroupIsSafe(
      ids: seq<nat>, g: nat, p: Policy, states: seq<Group>, acts: seq<Action>, i: nat, j: nat, a: nat, b: nat,
      act: Action)
    requires Distinct(ids) && 2 <= |ids| && g < |ids|
    requires IsRun(states, acts) && states[0] == GroupAt(ids, g) && Follows(p, states, acts) && p.timely
    requires i < |states| && j < |states| && a in states[i].nodes && b in states[j].nodes
    ensures var n, m := states[i].nodes[a], states[j].nodes[b];
            && (n.role.Leader? && m.role.Leader? && n.currentTerm == m.currentTerm ==> a == b)
            && (p.guarded ==> LogsAgree(n.log, m.log))
            && (p.guarded && p.current ==> !OutOfRange(p, states[i], act))
  {
    PlacedGroupIsInitial(ids, g);
    var n, m := states[i].nodes[a], states[j].nodes[b];
    if n.role.Leader? && m.role.Leader? && n.currentTerm == m.currentTerm {
      OneLeader(p, states, acts, i, j, a, b);
    }
    if p.guarded {
      SmallGroupLogMatching(p, states, acts);
      if p.current {
        NeverBeyond(p, states, acts, i, act);
      }
    }
  }

  /** No placed group can do without these checks: it has one leader per term in all its runs exactly with timely votes,
      matching logs exactly with timely votes and guarded second sections, and no read beyond a log exactly with both
      and, from three members on, current replies. */
  lemma PlacedGroupExactly(ids: seq<nat>, g: nat, p: Policy)
    requires Distinct(ids) && 2 <= |ids| && g < |ids|
    ensures OneLeaderAlways(GroupAt(ids, g), p) <==> p.timely
    ensures LogsMatchAlways(GroupAt(ids, g), p) <==> p.timely && p.guarded
    ensures NeverOutOfRange(GroupAt(ids, g), p) <==> p.timely && p.guarded && (p.current || |ids| == 2)
  {
    PlacedGroupIsInitial(ids, g);
    OneLeaderExactly(GroupAt(ids, g), p);
    LogMatchingExactly(GroupAt(ids, g), p);
    NeverOutOfRangeExactly(GroupAt(ids, g), p);
  }
}

/** At most one leader per term, in groups of two or three members, when a granted vote is only counted in the
    term it was granted for. */
module ElectionSafety {
  import opened Wrappers
  import opened Sequences
  import opened Raft
  import opened RaftInvariant
  import opened RaftGroup

  /** The voter granted this candidate in this term. */
  ghost predicate Granted(s: Group, term: nat, voter: nat, cand: nat) {
    Packet(voter, cand, VoteReply(term, true)) in s.net
  }

  /** A vote stands: its voter has moved to a later term, or is a follower that still records the candidate. */
  ghost predicate VoteStands(s: Group, term: nat, voter: nat, cand: nat)
    requires voter in s.nodes
  {
    var n := s.nodes[voter];
    term <= n.currentTerm && (term == n.currentTerm ==> n.role.Follower? && n.votedFor == Some(cand))
  }

  ghost predicate VoteInv(s: Group) {
    && BaseInv(s)
    && (forall t, v, c :: Granted(s, t, v, c) ==> v in s.nodes && VoteStands(s, t, v, c))
    && (forall t, v, c, d :: Granted(s, t, v, c) && Granted(s, t, v, d) ==> c == d)
    && (forall t, l :: (t, l) in s.elected ==> exists v :: Granted(s, t, v, l))
    && (forall t, l, c :: (t, l) in s.elected ==> !Granted(s, t, l, c))
  }

  lemma NewGrant(s: Group, a: Action, t: nat, v: nat, c: nat)
    requires VoteInv(s) && Enabled(s, a) && Granted(Perform(s, a), t, v, c) && !Granted(s, t, v, c)
    ensures v == a.id && a.input.Receive? && c == a.input.from && c != v
    ensures VoteStands(Perform(s, a), t, v, c)
    ensures forall d :: !Granted(s, t, v, d) || d == c
    ensures (t, v) !in s.elected
    ensures Perform(s, a).nodes[v].currentTerm == t && Perform(s, a).nodes[v].role.Follower?
  {
    var n, e := s.nodes[a.id], NodeStep(s.nodes[a.id], a.input).value;
    var k :| 0 <= k < |e.sent| && Packet(v, c, VoteReply(t, true)) == Packet(a.id, e.sent[k].dst, e.sent[k].msg);
    SentMessages(n, a.input, k);
    assert MemberOk(s, a.id);
    assert PacketOk(s, Packet(a.input.from, a.id, a.input.msg));
    StepKeepsInvariant(n, a.input);
    assert (t, v) in s.elected ==> ElectedOk(s, (t, v));
  }

  lemma OldGrant(s: Group, a: Action, t: nat, v: nat, c: nat)
    requires VoteInv(s) && Enabled(s, a) && Granted(s, t, v, c)
    ensures VoteStands(Perform(s, a), t, v, c)
  {
    if v == a.id {
      var n := s.nodes[v];
      assert MemberOk(s, v);
      if a.input.Receive? {
        assert PacketOk(s, Packet(a.input.from, a.id, a.input.msg));
      }
      StepKeepsInvariant(n, a.input);
      if t == NodeStep(n, a.input).value.node.currentTerm {
        FollowerKeepsVote(n, a.input, c);
      }
    }
  }

  /** Within a term a follower that has voted stays a follower and keeps its vote. */
  lemma FollowerKeepsVote(n: Node, input: Input, c: nat)
    requires NodeInv(n) && n.role.Follower? && n.votedFor == Some(c) && NodeStep(n, input).Some? && !TermWraps(n, input)
    requires NodeStep(n, input).value.node.currentTerm == n.currentTerm
    ensures NodeStep(n, input).value.node.role.Follower? && NodeStep(n, input).value.node.votedFor == Some(c)
  {
  }

  lemma VoteStep(s: Group, a: Action)
    requires VoteInv(s) && Enabled(s, a) && Timely(s, a)
    ensures VoteInv(Perform(s, a))
  {
    var s' := Perform(s, a);
    BaseStep(s, a);
    forall t, v, c | Granted(s', t, v, c)
      ensures v in s'.nodes && VoteStands(s', t, v, c)
    {
      if Granted(s, t, v, c) { OldGrant(s, a, t, v, c); } else { NewGrant(s, a, t, v, c); }
    }
    forall t, v, c, d | Granted(s', t, v, c) && Granted(s', t, v, d)
      ensures c == d
    {
      if !Granted(s, t, v, c) { NewGrant(s, a, t, v, c); }
      if !Granted(s, t, v, d) { NewGrant(s, a, t, v, d); }
    }
    forall t, l | (t, l) in s'.elected
      ensures exists v :: Granted(s', t, v, l)
      ensures forall c :: !Granted(s', t, l, c)
    {
      ElectedStep(s, a, t, l);
    }
  }

  lemma ElectedStep(s: Group, a: Action, t: nat, l: nat)
    requires VoteInv(s) && Enabled(s, a) && Timely(s, a) && (t, l) in Perform(s, a).elected
    ensures exists v :: Granted(Perform(s, a), t, v, l)
    ensures forall c :: !Granted(Perform(s, a), t, l, c)
  {
    var s' := Perform(s, a);
    var n := s.nodes[a.id];
    assert MemberOk(s, a.id);
    RoleSteps(n, a.input);
    if (t, l) in s.elected {
      var v :| Granted(s, t, v, l);
      assert Granted(s', t, v, l);
      forall c
        ensures !Granted(s', t, l, c)
      {
        if Granted(s', t, l, c) { NewGrant(s, a, t, l, c); }
      }
    } else {
      // l has just been elected, on a vote granted in its own term
      assert Granted(s', t, a.input.from, l);
      forall c
        ensures !Granted(s', t, l, c)
      {
        assert !Granted(s, t, l, c);
        if Granted(s', t, l, c) { NewGrant(s, a, t, l, c); }
      }
    }
  }

  lemma InitVote(s: Group)
    requires Init(s)
    ensures VoteInv(s)
  {
    InitBase(s);
  }

  lemma {:induction false} VoteRun(p: Policy, states: seq<Group>, acts: seq<Action>, i: nat)
    requires IsRun(states, acts) && i < |states| && Follows(p, states, acts) && p.timely
    ensures VoteInv(states[i])
  {
    if i == 0 {
      InitVote(states[0]);
    } else {
      VoteRun(p, states, acts, i - 1);
      var k := i - 1;
      assert Allows(p, states[k], acts[k]);
      VoteStep(states[k], acts[k]);
    }
  }

  ghost predicate OneLeaderPerTerm(s: Group) {
    forall t, a, b :: (t, a) in s.elected && (t, b) in s.elected ==> a == b
  }

  lemma VotesElectOne(s: Group)
    requires VoteInv(s) && |s.nodes| <= 3
    ensures OneLeaderPerTerm(s)
  {
    forall t, a, b | (t, a) in s.elected && (t, b) in s.elected
      ensures a == b
    {
      var v :| Granted(s, t, v, a);
      var w :| Granted(s, t, w, b);
      assert PacketOk(s, Packet(v, a, VoteReply(t, true)));
      assert PacketOk(s, Packet(w, b, VoteReply(t, true)));
      assert v != b && w != a;
      if a != b && v != w {
        FourNeedFour(s.nodes.Keys, a, b, v, w);
      }
    }
  }

  lemma FourNeedFour(s: set<nat>, a: nat, b: nat, c: nat, d: nat)
    requires a in s && b in s && c in s && d in s
    requires a != b && a != c && a != d && b != c && b != d && c != d
    ensures |s| >= 4
  {
    var four := {a} + {b} + {c} + {d};
    assert |{a} + {b}| == 2 && |{a} + {b} + {c}| == 3 && |four| == 4;
    SubsetSize(four, s);
  }

  /** Election safety over whole runs: two members that lead the same term, at whatever moments of the run, are
      the same member. */
  lemma OneLeader(p: Policy, states: seq<Group>, acts: seq<Action>, i: nat, j: nat, a: nat, b: nat)
    requires IsRun(states, acts) && |states[0].nodes| <= 3
    requires Follows(p, states, acts) && p.timely
    requires i < |states| && j < |states| && a in states[i].nodes && b in states[j].nodes
    requires states[i].nodes[a].role.Leader? && states[j].nodes[b].role.Leader?
    requires states[i].nodes[a].currentTerm == states[j].nodes[b].currentTerm
    ensures a == b
  {
    var last := |states| - 1;
    VoteRun(p, states, acts, last);
    HistoryGrows(states, acts, 0, last);
    HistoryGrows(states, acts, i, last);
    HistoryGrows(states, acts, j, last);
    BaseRun(states, acts, i);
    BaseRun(states, acts, j);
    assert MemberOk(states[i], a) && MemberOk(states[j], b);
    VotesElectOne(states[last]);
  }
}

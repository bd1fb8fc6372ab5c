/** Exactly when a term has one leader: runs of the code in which it has two, for every fully connected group. */
module ElectionLimits {
  import opened Wrappers
  import opened Raft
  import opened RaftGroup
  import opened ElectionSafety
  import opened GroupRuns

  /** No run from s under the policy ever has two leaders of one term; elected remembers every leader so far. */
  ghost predicate OneLeaderAlways(s: Group, p: Policy) {
    forall tr :: From(s, p, tr) ==> OneLeaderPerTerm(Now(tr))
  }

  /** Two members lead the same term, and no member has reached a later one; all logs are empty. */
  ghost predicate TwoLead(s: Group, a: nat, b: nat) {
    && a in s.nodes && b in s.nodes && a != b
    && EmptyLeader(s.nodes[a]) && EmptyLeader(s.nodes[b])
    && s.nodes[a].currentTerm == s.nodes[b].currentTerm
    && forall c :: c in s.nodes ==> Idle(s.nodes[c], s.nodes[a].currentTerm)
  }

  /** A leader as it comes out of an election, with an empty log. */
  predicate EmptyLeader(n: Node) {
    && n.role.Leader? && Small(n) && n.log == [SENTINEL] && n.peers != []
    && n.nextIndex == seq(|n.peers|, _ => 1) && n.matchIndex == seq(|n.peers|, _ => 0)
  }

  /** Nothing logged and nothing committed, up to term t. */
  predicate Idle(n: Node, t: nat) {
    n.log == [SENTINEL] && n.commitIndex == 0 && n.currentTerm <= t && Shaped(n)
  }

  /** The run has not changed who is a peer of whom. */
  ghost predicate SamePeers(s: Group, s': Group) {
    s'.nodes.Keys == s.nodes.Keys && forall c :: c in s.nodes ==> s'.nodes[c].peers == s.nodes[c].peers
  }

  /** Each of two members has been granted a vote by the other, in different terms. */
  lemma MutualVotes(s: Group, p: Policy, a: nat, b: nat) returns (tr: Trace)
    requires Init(s) && Mesh(s) && a in s.nodes && b in s.nodes && a != b
    ensures From(s, p, tr)
    ensures Now(tr).nodes == s.nodes[a := s.nodes[a].(currentTerm := 2, votedFor := Some(b))]
                                    [b := s.nodes[b].(role := Candidate, currentTerm := 2,
                                                      votedFor := Some(b), voteCount := 1)]
    ensures Packet(b, a, VoteReply(1, true)) in Now(tr).net && Packet(a, b, VoteReply(2, true)) in Now(tr).net
  {
    tr := Begin(s, p);
    tr := TimeoutAct(s, p, tr, a, b);
    tr := GrantAct(s, p, tr, b, a, RequestVote(1, 0, 0));
    tr := TimeoutAct(s, p, tr, b, a);
    tr := GrantAct(s, p, tr, a, b, RequestVote(2, 0, 0));
  }

  predicate EmptyCandidate(n: Node, t: nat) {
    n.role.Candidate? && n.currentTerm == t && Small(n) && n.log == [SENTINEL] && n.peers != []
  }

  /** Two candidates of one term, each with a granted reply on its way. */
  lemma BothWin(s: Group, p: Policy, tr: Trace, a: nat, b: nat, va: nat, ta: nat, vb: nat, tb: nat) returns (tr': Trace)
    requires From(s, p, tr) && SamePeers(s, Now(tr)) && a in s.nodes && b in s.nodes && a != b
    requires var t := Now(tr).nodes[a].currentTerm;
             && EmptyCandidate(Now(tr).nodes[a], t) && EmptyCandidate(Now(tr).nodes[b], t)
             && (forall c :: c in s.nodes ==> Idle(Now(tr).nodes[c], t))
             && ta <= t && tb <= t && (p.timely ==> ta == tb == t)
    requires Packet(va, a, VoteReply(ta, true)) in Now(tr).net && Packet(vb, b, VoteReply(tb, true)) in Now(tr).net
    ensures From(s, p, tr') && TwoLead(Now(tr'), a, b) && SamePeers(s, Now(tr'))
  {
    EmptyWinner(Now(tr).nodes[a], Now(tr).nodes[a].currentTerm);
    EmptyWinner(Now(tr).nodes[b], Now(tr).nodes[b].currentTerm);
    tr' := WinAct(s, p, tr, a, va, ta);
    tr' := WinAct(s, p, tr', b, vb, tb);
  }

  lemma EmptyWinner(n: Node, t: nat)
    requires EmptyCandidate(n, t)
    ensures EmptyLeader(BecomeLeader(n)) && BecomeLeader(n).currentTerm == t && Shaped(BecomeLeader(n))
    ensures Idle(n, t) ==> Idle(BecomeLeader(n), t)
  {
  }

  /** When replies are counted whatever term they were granted in, two members that once voted for each other both
      win term 3 on those old votes, in every group. */
  lemma StaleVotesElectTwo(s: Group, p: Policy, a: nat, b: nat) returns (tr: Trace)
    requires Init(s) && Mesh(s) && a in s.nodes && b in s.nodes && a != b && !p.timely
    ensures From(s, p, tr) && TwoLead(Now(tr), a, b) && SamePeers(s, Now(tr))
  {
    tr := MutualVotes(s, p, a, b);
    tr := TimeoutAct(s, p, tr, a, b);
    tr := TimeoutAct(s, p, tr, b, a);
    tr := BothWin(s, p, tr, a, b, b, 1, a, 2);
  }

  /** Two candidates of term 1, each with the vote of one more member. */
  lemma SplitVotes(s: Group, p: Policy, a: nat, b: nat, c: nat, d: nat) returns (tr: Trace)
    requires Init(s) && Mesh(s) && {a, b, c, d} <= s.nodes.Keys
    requires a != b && a != c && a != d && b != c && b != d && c != d
    ensures From(s, p, tr)
    ensures Now(tr).nodes == s.nodes[a := Candidacy(s.nodes[a])][b := Candidacy(s.nodes[b])]
                                    [c := s.nodes[c].(currentTerm := 1, votedFor := Some(a))]
                                    [d := s.nodes[d].(currentTerm := 1, votedFor := Some(b))]
    ensures Packet(c, a, VoteReply(1, true)) in Now(tr).net && Packet(d, b, VoteReply(1, true)) in Now(tr).net
  {
    tr := Begin(s, p);
    tr := TimeoutAct(s, p, tr, a, c);
    tr := TimeoutAct(s, p, tr, b, d);
    tr := GrantAct(s, p, tr, c, a, RequestVote(1, 0, 0));
    tr := GrantAct(s, p, tr, d, b, RequestVote(1, 0, 0));
  }

  /** From four members on two of them win term 1 on timely votes, each with one voter whose reply is delivered as
      often as a quorum needs. */
  lemma FourMembersElectTwo(s: Group, p: Policy, a: nat, b: nat, c: nat, d: nat) returns (tr: Trace)
    requires Init(s) && Mesh(s) && {a, b, c, d} <= s.nodes.Keys
    requires a != b && a != c && a != d && b != c && b != d && c != d
    ensures From(s, p, tr) && TwoLead(Now(tr), a, b) && SamePeers(s, Now(tr))
  {
    tr := SplitVotes(s, p, a, b, c, d);
    tr := BothWin(s, p, tr, a, b, c, 1, d, 1);
  }

  lemma OtherMember(s: Group, a: nat) returns (b: nat)
    requires Init(s) && a in s.nodes
    ensures b in s.nodes && b != a
  {
    b := s.nodes[a].peers[0];
    assert PeersOk(s, a) && b in s.nodes[a].peers;
  }

  lemma FourMembers(m: set<nat>) returns (a: nat, b: nat, c: nat, d: nat)
    requires |m| >= 4
    ensures {a, b, c, d} <= m && a != b && a != c && a != d && b != c && b != d && c != d
  {
    a :| a in m;
    var m1 := m - {a};
    assert |m1| >= 3;
    b :| b in m1;
    var m2 := m1 - {b};
    assert |m2| >= 2;
    c :| c in m2;
    var m3 := m2 - {c};
    assert |m3| >= 1;
    d :| d in m3;
  }

  /** Without timely votes, or with four members or more, some run has two leaders of one term. */
  lemma TwoLeaders(s: Group, p: Policy) returns (tr: Trace, a: nat, b: nat)
    requires Init(s) && Mesh(s) && s.nodes != map[] && !(p.timely && |s.nodes| <= 3)
    ensures From(s, p, tr) && TwoLead(Now(tr), a, b) && SamePeers(s, Now(tr))
  {
    if !p.timely {
      a :| a in s.nodes;
      b := OtherMember(s, a);
      tr := StaleVotesElectTwo(s, p, a, b);
    } else {
      var c, d;
      assert |s.nodes.Keys| == |s.nodes|;
      a, b, c, d := FourMembers(s.nodes.Keys);
      tr := FourMembersElectTwo(s, p, a, b, c, d);
    }
  }

  lemma LeadersElected(s: Group, p: Policy, tr: Trace, a: nat, b: nat)
    requires From(s, p, tr) && TwoLead(Now(tr), a, b)
    ensures !OneLeaderPerTerm(Now(tr))
  {
    BaseRun(tr.states, tr.acts, |tr.states| - 1);
    assert MemberOk(Now(tr), a) && MemberOk(Now(tr), b);
  }

  /** Election safety, exactly: in a fully connected group every run has at most one leader per term if and only if
      votes are counted in their own term only and there are at most three members. */
  lemma OneLeaderExactly(s: Group, p: Policy)
    requires Init(s) && Mesh(s) && s.nodes != map[]
    ensures OneLeaderAlways(s, p) <==> p.timely && |s.nodes| <= 3
  {
    if p.timely && |s.nodes| <= 3 {
      forall tr | From(s, p, tr)
        ensures OneLeaderPerTerm(Now(tr))
      {
        var last := |tr.states| - 1;
        VoteRun(p, tr.states, tr.acts, last);
        HistoryGrows(tr.states, tr.acts, 0, last);
        VotesElectOne(Now(tr));
      }
    } else {
      var tr, a, b := TwoLeaders(s, p);
      LeadersElected(s, p, tr, a, b);
    }
  }
}

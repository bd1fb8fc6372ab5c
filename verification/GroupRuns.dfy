/** Building runs of a group step by step, to show what can happen in it. */
module GroupRuns {
  import opened Wrappers
  import opened Decimal
  import opened Raft
  import opened RaftGroup

  /** Every member has every other one as a peer. */
  ghost predicate Mesh(s: Group) {
    forall a, b :: a in s.nodes && b in s.nodes && a != b ==> b in s.nodes[a].peers
  }

  datatype Trace = Trace(states: seq<Group>, acts: seq<Action>)

  /** A run from s that respects the policy. */
  ghost predicate From(s: Group, p: Policy, tr: Trace) {
    IsRun(tr.states, tr.acts) && tr.states[0] == s && Follows(p, tr.states, tr.acts)
  }

  function Now(tr: Trace): Group
    requires tr.states != []
  {
    tr.states[|tr.states| - 1]
  }

  lemma Begin(s: Group, p: Policy) returns (tr: Trace)
    requires Init(s)
    ensures From(s, p, tr) && Now(tr) == s && tr.acts == []
  {
    tr := Trace([s], []);
  }

  lemma Do(s: Group, p: Policy, tr: Trace, a: Action) returns (tr': Trace)
    requires From(s, p, tr) && Enabled(Now(tr), a) && Allows(p, Now(tr), a)
    ensures From(s, p, tr') && Now(tr') == Perform(Now(tr), a) && tr'.acts == tr.acts + [a]
  {
    var n := |tr.acts|;
    tr' := Trace(tr.states + [Perform(Now(tr), a)], tr.acts + [a]);
    forall i | 0 <= i <= n
      ensures Enabled(tr'.states[i], tr'.acts[i]) && tr'.states[i + 1] == Perform(tr'.states[i], tr'.acts[i])
      ensures Allows(p, tr'.states[i], tr'.acts[i])
    {
      if i < n {
        assert tr'.acts[i] == tr.acts[i] && tr'.states[i] == tr.states[i] && tr'.states[i + 1] == tr.states[i + 1];
      }
    }
  }

  /** One member has become n; the network has only grown. */
  ghost predicate Moved(tr: Trace, tr': Trace, id: nat, n: Node)
    requires tr.states != [] && tr'.states != []
  {
    && Now(tr').nodes == Now(tr).nodes[id := n] && Now(tr).net <= Now(tr').net
    && Now(tr').elected == Now(tr).elected + if n.role.Leader? then {(n.currentTerm, id)} else {}
  }

  /** A member whose log and term are far from their 64-bit limits. */
  predicate Small(n: Node) {
    n.currentTerm < U64 - 10 && 0 < |n.log| < U64 - 10
  }

  function Candidacy(n: Node): Node {
    n.(role := Candidate, currentTerm := n.currentTerm + 1, votedFor := Some(n.id), voteCount := 1)
  }

  /** An election timeout: every peer has the request. */
  lemma TimeoutAllAct(s: Group, p: Policy, tr: Trace, id: nat) returns (tr': Trace)
    requires From(s, p, tr) && id in Now(tr).nodes && !Now(tr).nodes[id].role.Leader? && Small(Now(tr).nodes[id])
    ensures From(s, p, tr') && Moved(tr, tr', id, Candidacy(Now(tr).nodes[id]))
    ensures |tr'.acts| == |tr.acts| + 1
    ensures Now(tr').proposing == Now(tr).proposing
    ensures var n := Now(tr).nodes[id];
            forall q :: q in n.peers ==>
              Packet(id, q, RequestVote(n.currentTerm + 1, LastIndex(n), LastTerm(n))) in Now(tr').net
  {
    var n := Now(tr).nodes[id];
    var n', m := Candidacy(n), RequestVote(n.currentTerm + 1, LastIndex(n), LastTerm(n));
    assert BecomeCandidate(n) == n' && LastIndex(n') == LastIndex(n) && LastTerm(n') == LastTerm(n);
    var sent := NodeStep(n, Timeout).value.sent;
    assert sent == VoteRequests(n', n.peers);
    tr' := Do(s, p, tr, Action(id, Timeout));
    forall q | q in n.peers
      ensures Packet(id, q, m) in Now(tr').net
    {
      var k :| 0 <= k < |n.peers| && n.peers[k] == q;
      assert sent[k] == Envelope(q, m);
    }
  }

  lemma TimeoutAct(s: Group, p: Policy, tr: Trace, id: nat, q: nat) returns (tr': Trace)
    requires From(s, p, tr) && id in Now(tr).nodes && q in Now(tr).nodes[id].peers
    requires !Now(tr).nodes[id].role.Leader? && Small(Now(tr).nodes[id])
    ensures From(s, p, tr') && Moved(tr, tr', id, Candidacy(Now(tr).nodes[id]))
    ensures Now(tr').proposing == Now(tr).proposing
    ensures var n := Now(tr).nodes[id];
            Packet(id, q, RequestVote(n.currentTerm + 1, LastIndex(n), LastTerm(n))) in Now(tr').net
  {
    tr' := TimeoutAllAct(s, p, tr, id);
  }

  lemma DeliverAct(s: Group, p: Policy, tr: Trace, id: nat, from: nat, m: Msg) returns (tr': Trace)
    requires From(s, p, tr) && id in Now(tr).nodes && Packet(from, id, m) in Now(tr).net
    requires Enabled(Now(tr), Action(id, Receive(from, m))) && Allows(p, Now(tr), Action(id, Receive(from, m)))
    ensures From(s, p, tr') && Moved(tr, tr', id, NodeStep(Now(tr).nodes[id], Receive(from, m)).value.node)
    ensures |tr'.acts| == |tr.acts| + 1
    ensures Now(tr').proposing == Now(tr).proposing
    ensures var sent := NodeStep(Now(tr).nodes[id], Receive(from, m)).value.sent;
            sent != [] ==> Packet(id, sent[0].dst, sent[0].msg) in Now(tr').net
  {
    tr' := Do(s, p, tr, Action(id, Receive(from, m)));
  }

  /** A vote request of a later term, granted. */
  lemma GrantAct(s: Group, p: Policy, tr: Trace, id: nat, from: nat, m: Msg) returns (tr': Trace)
    requires From(s, p, tr) && id in Now(tr).nodes && m.RequestVote? && Packet(from, id, m) in Now(tr).net
    requires var n := Now(tr).nodes[id];
             Shaped(n) && Small(n) && m.term > n.currentTerm && UpToDate(n, m.lastIdx, m.lastTerm)
    ensures From(s, p, tr') && Now(tr').proposing == Now(tr).proposing
    ensures |tr'.acts| == |tr.acts| + 1
    ensures var n := Now(tr).nodes[id];
            Moved(tr, tr', id, n.(role := Follower, currentTerm := m.term, votedFor := Some(from), voteCount := 0))
    ensures Packet(id, from, VoteReply(m.term, true)) in Now(tr').net
  {
    tr' := DeliverAct(s, p, tr, id, from, m);
  }

  /** One granted reply, delivered as often as it takes and no more: replies are not counted per voter. */
  lemma {:induction false} WinAct(s: Group, p: Policy, tr: Trace, id: nat, from: nat, term: nat) returns (tr': Trace)
    requires From(s, p, tr) && id in Now(tr).nodes && Packet(from, id, VoteReply(term, true)) in Now(tr).net
    requires var n := Now(tr).nodes[id];
             n.role.Candidate? && Small(n) && term <= n.currentTerm && (p.timely ==> term == n.currentTerm)
    ensures From(s, p, tr') && Moved(tr, tr', id, BecomeLeader(Now(tr).nodes[id]))
    ensures Now(tr').proposing == Now(tr).proposing
    ensures var n, d := Now(tr).nodes[id], |tr'.acts| - |tr.acts|;
            d >= 1 && 2 * (n.voteCount + d) > |n.peers| && (d > 1 ==> 2 * (n.voteCount + d - 1) <= |n.peers|)
    decreases |Now(tr).nodes[id].peers| - Now(tr).nodes[id].voteCount
  {
    var n := Now(tr).nodes[id];
    tr' := DeliverAct(s, p, tr, id, from, VoteReply(term, true));
    if n.voteCount + 1 < |n.peers| / 2 + 1 {
      assert Now(tr').nodes[id] == n.(voteCount := n.voteCount + 1);
      tr' := WinAct(s, p, tr', id, from, term);
    }
  }

  lemma ProposeAct(s: Group, p: Policy, tr: Trace, id: nat, cmd: string) returns (tr': Trace)
    requires From(s, p, tr) && id in Now(tr).nodes
    requires var n := Now(tr).nodes[id]; n.role.Leader? && Sized(n) && n.peers != [] && Small(n)
    ensures From(s, p, tr') && Now(tr').proposing == Now(tr).proposing + multiset{id}
    ensures |tr'.acts| == |tr.acts| + 1
    ensures var n := Now(tr).nodes[id]; Moved(tr, tr', id, n.(log := n.log + [Entry(n.currentTerm, cmd)]))
  {
    tr' := Do(s, p, tr, Action(id, Propose(cmd)));
  }

  lemma {:induction false} SentToPeer(n: Node, peers: seq<nat>, q: nat) returns (k: nat)
    requires Sized(n) && q in peers && q in n.peers
    ensures k < |SendToAll(n, peers)|
    ensures SendToAll(n, peers)[k] == Envelope(q, AppendMsg(n, n.nextIndex[PeerIndex(n.peers, q)]))
  {
    var init := peers[..|peers| - 1];
    if peers[|peers| - 1] == q {
      k := |SendToAll(n, init)|;
    } else {
      k := SentToPeer(n, init, q);
    }
  }

  /** The message that a member has for a peer. */
  function MessageFor(n: Node, q: nat): Msg
    requires Sized(n) && q in n.peers
  {
    AppendMsg(n, n.nextIndex[PeerIndex(n.peers, q)])
  }

  /** A heartbeat, or the second section of propose: every peer has its message. */
  lemma SendAllAct(s: Group, p: Policy, tr: Trace, id: nat, input: Input) returns (tr': Trace)
    requires From(s, p, tr) && id in Now(tr).nodes && (input.Broadcast? || input.SendProposed?)
    requires Sized(Now(tr).nodes[id]) && Small(Now(tr).nodes[id])
    requires !Now(tr).nodes[id].role.Leader? ==> input.SendProposed? && !p.guarded
    requires input.SendProposed? ==> id in Now(tr).proposing
    ensures From(s, p, tr') && Moved(tr, tr', id, Now(tr).nodes[id])
    ensures |tr'.acts| == |tr.acts| + 1
    ensures input.Broadcast? ==> Now(tr').proposing == Now(tr).proposing
    ensures var n := Now(tr).nodes[id];
            forall q :: q in n.peers ==> Packet(id, q, MessageFor(n, q)) in Now(tr').net
  {
    var n := Now(tr).nodes[id];
    var e := NodeStep(n, input).value;
    tr' := Do(s, p, tr, Action(id, input));
    forall q | q in n.peers
      ensures Packet(id, q, MessageFor(n, q)) in Now(tr').net
    {
      var k := SentToPeer(n, n.peers, q);
      assert e.sent[k] == Envelope(q, MessageFor(n, q));
    }
  }

  lemma SendAct(s: Group, p: Policy, tr: Trace, id: nat, q: nat, input: Input) returns (tr': Trace)
    requires From(s, p, tr) && id in Now(tr).nodes && (input.Broadcast? || input.SendProposed?)
    requires var n := Now(tr).nodes[id]; Sized(n) && Small(n) && q in n.peers
    requires !Now(tr).nodes[id].role.Leader? ==> input.SendProposed? && !p.guarded
    requires input.SendProposed? ==> id in Now(tr).proposing
    ensures From(s, p, tr') && Moved(tr, tr', id, Now(tr).nodes[id])
    ensures input.Broadcast? ==> Now(tr').proposing == Now(tr).proposing
    ensures Packet(id, q, MessageFor(Now(tr).nodes[id], q)) in Now(tr').net
  {
    tr' := SendAllAct(s, p, tr, id, input);
  }
}

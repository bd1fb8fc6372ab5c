/** A Raft group: its members and a network that may lose, reorder and duplicate messages. A packet stays in the
    network for ever once sent, so any packet may be delivered never, late, or many times. Runs have no restarts. */
module RaftGroup {
  import opened Wrappers
  import opened Decimal
  import opened Raft
  import opened RaftInvariant

  datatype Packet = Packet(src: nat, dst: nat, msg: Msg)

  /** proposing holds, once per thread, the members with a thread between the two locked sections of propose.
      elected and termLog are history: who has led which term, and the commands in the log of each term's leader. */
  datatype Group = Group(
    nodes: map<nat, Node>, net: set<Packet>, proposing: multiset<nat>,
    elected: set<(nat, nat)>, termLog: map<nat, seq<string>>)

  /** One locked section at one member; a received message is one that is in the network. */
  datatype Action = Action(id: nat, input: Input)

  ghost predicate Init(s: Group) {
    && (forall id :: id in s.nodes ==>
          && s.nodes[id] == Fresh(id, s.nodes[id].peers)
          && s.nodes[id].peers != []
          && PeersOk(s, id))
    && s.net == {} && s.proposing == multiset{} && s.elected == {} && s.termLog == map[]
  }

  ghost predicate PeersOk(s: Group, id: nat)
    requires id in s.nodes
  {
    forall p :: p in s.nodes[id].peers ==> p in s.nodes && p != id
  }

  /** The action can happen, with defined behaviour, within what 64-bit terms and vector sizes can express. */
  ghost predicate Enabled(s: Group, a: Action) {
    && a.id in s.nodes && Shaped(s.nodes[a.id])
    && (a.input.Receive? ==> Packet(a.input.from, a.id, a.input.msg) in s.net)
    && (a.input.SendProposed? ==> a.id in s.proposing)
    && !TermWraps(s.nodes[a.id], a.input)
    && NodeStep(s.nodes[a.id], a.input).Some?
    && |NodeStep(s.nodes[a.id], a.input).value.node.log| < U64
  }

  function Posted(src: nat, sent: seq<Envelope>): set<Packet> {
    set i | 0 <= i < |sent| :: Packet(src, sent[i].dst, sent[i].msg)
  }

  /** A leader's propose leaves its second section to be run. */
  function Proposing(s: Group, a: Action): multiset<nat>
    requires a.id in s.nodes
  {
    if a.input.Propose? && s.nodes[a.id].role.Leader? then s.proposing + multiset{a.id}
    else if a.input.SendProposed? then s.proposing - multiset{a.id}
    else s.proposing
  }

  function Perform(s: Group, a: Action): Group
    requires a.id in s.nodes && Shaped(s.nodes[a.id]) && NodeStep(s.nodes[a.id], a.input).Some?
  {
    var e := NodeStep(s.nodes[a.id], a.input).value;
    var leads := e.node.role.Leader?;
    Group(s.nodes[a.id := e.node],
          s.net + Posted(a.id, e.sent),
          Proposing(s, a),
          if leads then s.elected + {(e.node.currentTerm, a.id)} else s.elected,
          if leads then s.termLog[e.node.currentTerm := Commands(e.node.log)] else s.termLog)
  }

  /** states[i + 1] follows states[i] by acts[i]. */
  ghost predicate IsRun(states: seq<Group>, acts: seq<Action>) {
    && |states| == |acts| + 1
    && Init(states[0])
    && forall i {:trigger acts[i]} :: 0 <= i < |acts| ==>
         Enabled(states[i], acts[i]) && states[i + 1] == Perform(states[i], acts[i])
  }

  // ---- three checks the code does not make ----

  /** A granted vote reply is not delivered to a candidate of a later term. */
  ghost predicate Timely(s: Group, a: Action) {
    (a.id in s.nodes && s.nodes[a.id].role.Candidate?
     && a.input.Receive? && a.input.msg.VoteReply? && a.input.msg.granted) ==>
      a.input.msg.term >= s.nodes[a.id].currentTerm
  }

  /** The second section of propose is run by a member that leads. */
  ghost predicate Guarded(s: Group, a: Action) {
    a.input.SendProposed? && a.id in s.nodes ==> s.nodes[a.id].role.Leader?
  }

  /** A success reply is not delivered to a leader of a later term. */
  ghost predicate Current(s: Group, a: Action) {
    (a.id in s.nodes && s.nodes[a.id].role.Leader?
     && a.input.Receive? && a.input.msg.AppendReply? && a.input.msg.success) ==>
      a.input.msg.term >= s.nodes[a.id].currentTerm
  }

  /** Which of the three checks a run respects. */
  datatype Policy = Policy(timely: bool, guarded: bool, current: bool)

  ghost predicate Allows(p: Policy, s: Group, a: Action) {
    (p.timely ==> Timely(s, a)) && (p.guarded ==> Guarded(s, a)) && (p.current ==> Current(s, a))
  }

  ghost predicate Follows(p: Policy, states: seq<Group>, acts: seq<Action>)
    requires |states| == |acts| + 1
  {
    forall k {:trigger acts[k]} :: 0 <= k < |acts| ==> Allows(p, states[k], acts[k])
  }

  // ---- what a locked section sends ----

  /** Every message goes to a peer or back to the sender, and carries the sender's term; AppendEntries come from
      leaders and from the second section of propose, and a vote is granted only to the requester, who is then
      recorded. */
  predicate SentOk(n: Node, input: Input, n': Node, e: Envelope) {
    && (e.dst in n.peers || (input.Receive? && e.dst == input.from))
    && e.msg.term == n'.currentTerm
    && (e.msg.AppendReply? ==> e.msg.matchIdx < |n'.log|)
    && (e.msg.AppendEntries? ==>
          && (n'.role.Leader? || input.SendProposed?)
          && exists i :: 0 <= i < |n'.nextIndex| && e.msg == AppendMsg(n', n'.nextIndex[i]))
    && (e.msg == VoteReply(n'.currentTerm, true) ==>
          input.Receive? && input.msg.RequestVote? && e.dst == input.from && n'.votedFor == Some(input.from)
          && input.msg.term == n'.currentTerm
          && (n.currentTerm == n'.currentTerm ==>
                n == n'.(votedFor := n.votedFor) && (n.votedFor.None? || n.votedFor == Some(input.from)))
          && (n.currentTerm < n'.currentTerm ==> n'.role.Follower?))
  }

  lemma {:induction false} BroadcastSends(n: Node, peers: seq<nat>, input: Input, k: nat)
    requires Sized(n) && (n.role.Leader? || input.SendProposed?) && k < |SendToAll(n, peers)|
    ensures SentOk(n, input, n, SendToAll(n, peers)[k])
  {
    var init := peers[..|peers| - 1];
    if k < |SendToAll(n, init)| {
      BroadcastSends(n, init, input, k);
    }
  }

  lemma SentMessages(n: Node, input: Input, k: nat)
    requires Shaped(n) && NodeStep(n, input).Some?
    requires k < |NodeStep(n, input).value.sent|
    ensures SentOk(n, input, NodeStep(n, input).value.node, NodeStep(n, input).value.sent[k])
  {
    if (input.Broadcast? && n.role.Leader?) || input.SendProposed? {
      BroadcastSends(n, n.peers, input, k);
    } else if input.Timeout? {
    } else if input.Receive? {
      ReceiveSends(n, input.from, input.msg, k);
    }
  }

  lemma ReceiveSends(n: Node, from: nat, m: Msg, k: nat)
    requires Shaped(n) && NodeStep(n, Receive(from, m)).Some?
    requires k < |NodeStep(n, Receive(from, m)).value.sent|
    ensures var e := NodeStep(n, Receive(from, m)).value; SentOk(n, Receive(from, m), e.node, e.sent[k])
  {
    match m
    case AppendEntries(_, _, _, _, _) =>
    case AppendReply(_, _, _) =>
    case RequestVote(_, _, _) =>
    case VoteReply(_, _) =>
  }

  // ---- the invariant every run keeps ----

  ghost predicate PacketOk(s: Group, p: Packet) {
    && p.src in s.nodes && p.dst in s.nodes && p.src != p.dst
    && p.msg.term < U64 && p.msg.term <= s.nodes[p.src].currentTerm
    && (p.msg.AppendReply? ==> p.msg.matchIdx < U64 - 1)
  }

  ghost predicate MemberOk(s: Group, id: nat)
    requires id in s.nodes
  {
    var n := s.nodes[id];
    && NodeInv(n) && n.id == id && n.peers != [] && PeersOk(s, id) && |n.log| < U64
    && (n.role.Leader? ==> (n.currentTerm, id) in s.elected)
    && (id in s.proposing ==> Sized(n))
  }

  /** Whoever led a term has moved past it or still leads it. */
  ghost predicate ElectedOk(s: Group, e: (nat, nat)) {
    && e.1 in s.nodes && e.0 <= s.nodes[e.1].currentTerm
    && (e.0 == s.nodes[e.1].currentTerm ==> s.nodes[e.1].role.Leader?)
  }

  ghost predicate BaseInv(s: Group) {
    && (forall p :: p in s.net ==> PacketOk(s, p))
    && (forall id :: id in s.nodes ==> MemberOk(s, id))
    && (forall e :: e in s.elected ==> ElectedOk(s, e))
  }

  lemma InitBase(s: Group)
    requires Init(s)
    ensures BaseInv(s)
  {
  }

  /** A leader stays leader for as long as its term lasts, and becomes one only from candidate. */
  lemma RoleSteps(n: Node, input: Input)
    requires NodeInv(n) && n.peers != [] && NodeStep(n, input).Some? && !TermWraps(n, input)
    ensures var n' := NodeStep(n, input).value.node;
            && (n.role.Leader? && n'.currentTerm == n.currentTerm ==> n'.role.Leader?)
            && (n'.role.Leader? ==> n'.currentTerm == n.currentTerm && (n.role.Leader? || n.role.Candidate?))
            && (n'.role.Leader? && !n.role.Leader? ==>
                  input.Receive? && input.msg.VoteReply? && input.msg.granted && input.msg.term <= n.currentTerm)
  {
  }

  /** A received message was all right, and the member's invariant and term go on. */
  lemma ActorStep(s: Group, a: Action)
    requires BaseInv(s) && Enabled(s, a)
    ensures var n, n' := s.nodes[a.id], Perform(s, a).nodes[a.id];
            && n.peers == n'.peers && n.currentTerm <= n'.currentTerm < U64 && |n'.log| < U64
            && (a.input.Receive? ==> a.input.from in s.nodes && a.input.from != a.id)
            && PeersOk(s, a.id)
  {
    assert MemberOk(s, a.id);
    if a.input.Receive? {
      assert PacketOk(s, Packet(a.input.from, a.id, a.input.msg));
    }
    StepKeepsInvariant(s.nodes[a.id], a.input);
  }

  lemma PacketStep(s: Group, a: Action, p: Packet)
    requires BaseInv(s) && Enabled(s, a) && p in Perform(s, a).net
    ensures PacketOk(Perform(s, a), p)
  {
    var n, e := s.nodes[a.id], NodeStep(s.nodes[a.id], a.input).value;
    ActorStep(s, a);
    if p in s.net {
      assert PacketOk(s, p);
    } else {
      var k :| 0 <= k < |e.sent| && p == Packet(a.id, e.sent[k].dst, e.sent[k].msg);
      SentMessages(n, a.input, k);
    }
  }

  lemma BaseStep(s: Group, a: Action)
    requires BaseInv(s) && Enabled(s, a)
    ensures BaseInv(Perform(s, a))
  {
    var s' := Perform(s, a);
    var n := s.nodes[a.id];
    assert MemberOk(s, a.id);
    if a.input.Receive? {
      assert PacketOk(s, Packet(a.input.from, a.id, a.input.msg));
    }
    StepKeepsInvariant(n, a.input);
    StaysSized(n, a.input);
    RoleSteps(n, a.input);
    forall p | p in s'.net
      ensures PacketOk(s', p)
    {
      PacketStep(s, a, p);
    }
    forall id | id in s'.nodes
      ensures MemberOk(s', id)
    {
      assert MemberOk(s, id);
    }
    forall x | x in s'.elected
      ensures ElectedOk(s', x)
    {
      if x in s.elected {
        assert ElectedOk(s, x);
      }
    }
  }

  /** Whoever runs the second section of propose has led, so the vectors it indexes are filled. */
  lemma SecondSectionDefined(states: seq<Group>, acts: seq<Action>, i: nat, id: nat)
    requires IsRun(states, acts) && i < |states| && id in states[i].nodes && id in states[i].proposing
    ensures Shaped(states[i].nodes[id]) && NodeStep(states[i].nodes[id], SendProposed).Some?
  {
    BaseRun(states, acts, i);
    assert MemberOk(states[i], id);
  }

  lemma {:induction false} BaseRun(states: seq<Group>, acts: seq<Action>, i: nat)
    requires IsRun(states, acts) && i < |states|
    ensures BaseInv(states[i])
  {
    if i == 0 {
      InitBase(states[0]);
    } else {
      BaseRun(states, acts, i - 1);
      BaseStep(states[i - 1], acts[i - 1]);
    }
  }

  /** History only grows along a run. */
  lemma {:induction false} HistoryGrows(states: seq<Group>, acts: seq<Action>, i: nat, j: nat)
    requires IsRun(states, acts) && i <= j < |states|
    ensures states[i].elected <= states[j].elected && states[i].net <= states[j].net
    ensures states[i].nodes.Keys == states[j].nodes.Keys
    decreases j - i
  {
    if i < j {
      HistoryGrows(states, acts, i, j - 1);
      var a := acts[j - 1];
    }
  }
}

/** Exactly when log matching holds: runs of the code in which equal labels hide different commands, for every fully
    connected group, and a run in which equal labels sit above different labels. */
module LogLimits {
  import opened Wrappers
  import opened Decimal
  import opened Raft
  import opened RaftGroup
  import opened ElectionSafety
  import opened LogMatching
  import opened GroupRuns
  import opened ElectionLimits

  /** Every run from s under the policy matches its logs. */
  ghost predicate LogsMatchAlways(s: Group, p: Policy) {
    forall tr :: From(s, p, tr) ==> LogsMatch(tr.states)
  }

  /** Two members hold different commands under one label at one index. */
  ghost predicate Diverged(s: Group, a: nat, b: nat, k: nat) {
    && a in s.nodes && b in s.nodes && k < |s.nodes[a].log| && k < |s.nodes[b].log|
    && s.nodes[a].log[k].term == s.nodes[b].log[k].term
    && s.nodes[a].log[k].command != s.nodes[b].log[k].command
  }

  // ---- two leaders of one term ----

  lemma TwoLeadersDiverge(s: Group, p: Policy, tr: Trace, a: nat, b: nat) returns (tr': Trace)
    requires From(s, p, tr) && TwoLead(Now(tr), a, b)
    ensures From(s, p, tr') && Diverged(Now(tr'), a, b, 1)
  {
    tr' := ProposeAct(s, p, tr, a, "x");
    tr' := ProposeAct(s, p, tr', b, "y");
  }

  // ---- a second section of propose run by a former leader ----

  /** The leader of term 1, which has proposed x. */
  function Proposer(n: Node): Node {
    n.(role := Leader, currentTerm := 1, votedFor := Some(n.id), log := [SENTINEL, Entry(1, "x")],
       nextIndex := seq(|n.peers|, _ => 1), matchIndex := seq(|n.peers|, _ => 0))
  }

  /** A member as it is after leading term 1, proposing x, and voting for b in term 2. */
  function Deposed(n: Node, b: nat): Node {
    Proposer(n).(role := Follower, currentTerm := 2, votedFor := Some(b))
  }

  /** The leader of term 2, which has x from term 1 and has proposed y. */
  function Successor(n: Node): Node {
    n.(role := Leader, currentTerm := 2, votedFor := Some(n.id), log := [SENTINEL, Entry(1, "x"), Entry(2, "y")],
       nextIndex := seq(|n.peers|, _ => 2), matchIndex := seq(|n.peers|, _ => 0))
  }

  /** a has won term 1 with b's vote. */
  lemma FirstElection(s: Group, p: Policy, a: nat, b: nat) returns (tr: Trace)
    requires Init(s) && Mesh(s) && a in s.nodes && b in s.nodes && a != b
    ensures From(s, p, tr)
    ensures Now(tr).nodes == s.nodes[a := Proposer(s.nodes[a]).(log := [SENTINEL])]
                                    [b := s.nodes[b].(currentTerm := 1, votedFor := Some(a))]
    ensures Now(tr).elected == {(1, a)}
  {
    tr := Begin(s, p);
    tr := TimeoutAct(s, p, tr, a, b);
    tr := GrantAct(s, p, tr, b, a, RequestVote(1, 0, 0));
    tr := WinAct(s, p, tr, a, b, 1);
    assert Now(tr).nodes[a] == Proposer(s.nodes[a]).(log := [SENTINEL]);
  }

  /** It has proposed x, and its second section has not run yet. */
  lemma FirstProposal(s: Group, p: Policy, a: nat, b: nat) returns (tr: Trace)
    requires Init(s) && Mesh(s) && a in s.nodes && b in s.nodes && a != b
    ensures From(s, p, tr) && a in Now(tr).proposing
    ensures Now(tr).nodes == s.nodes[a := Proposer(s.nodes[a])]
                                    [b := s.nodes[b].(currentTerm := 1, votedFor := Some(a))]
    ensures Now(tr).elected == {(1, a)}
  {
    tr := FirstElection(s, p, a, b);
    tr := ProposeAct(s, p, tr, a, "x");
    assert Now(tr).nodes[a] == Proposer(s.nodes[a]);
  }

  /** b has accepted x from a heartbeat. */
  lemma FirstLeader(s: Group, p: Policy, a: nat, b: nat) returns (tr: Trace)
    requires Init(s) && Mesh(s) && a in s.nodes && b in s.nodes && a != b
    ensures From(s, p, tr) && a in Now(tr).proposing
    ensures Now(tr).nodes == s.nodes[a := Proposer(s.nodes[a])]
                                    [b := s.nodes[b].(currentTerm := 1, votedFor := Some(a),
                                                      log := [SENTINEL, Entry(1, "x")])]
    ensures Now(tr).elected == {(1, a)}
  {
    tr := FirstProposal(s, p, a, b);
    tr := SendAct(s, p, tr, a, b, Broadcast);
    FirstMessage(Now(tr).nodes[a]);
    tr := DeliverAct(s, p, tr, b, a, AppendEntries(1, 0, 0, 0, ["x"]));
    assert Merge([SENTINEL], 1, 1, ["x"]) == [SENTINEL, Entry(1, "x")];
  }

  lemma FirstMessage(n: Node)
    requires n.log == [SENTINEL, Entry(1, "x")] && n.commitIndex == 0
    ensures AppendMsg(n, 1) == AppendEntries(n.currentTerm, 0, 0, 0, ["x"])
  {
    assert n.log[1..] == [Entry(1, "x")];
    assert Commands(n.log[1..]) == ["x"];
  }

  /** b has won term 2 with a's vote and proposed y. */
  lemma SecondLeader(s: Group, p: Policy, a: nat, b: nat) returns (tr: Trace)
    requires Init(s) && Mesh(s) && a in s.nodes && b in s.nodes && a != b
    ensures From(s, p, tr) && a in Now(tr).proposing
    ensures Now(tr).nodes == s.nodes[a := Deposed(s.nodes[a], b)][b := Successor(s.nodes[b])]
    ensures Now(tr).elected == {(1, a), (2, b)}
  {
    tr := FirstLeader(s, p, a, b);
    tr := TimeoutAct(s, p, tr, b, a);
    tr := GrantAct(s, p, tr, a, b, RequestVote(2, 1, 1));
    tr := WinAct(s, p, tr, b, a, 2);
    tr := ProposeAct(s, p, tr, b, "y");
    assert Now(tr).nodes[b] == Successor(s.nodes[b]);
    assert Now(tr).nodes[a] == Deposed(s.nodes[a], b);
  }

  lemma SecondMessage(n: Node)
    requires n.log == [SENTINEL, Entry(1, "x"), Entry(2, "y")] && n.commitIndex == 0
    ensures AppendMsg(n, 2) == AppendEntries(n.currentTerm, 1, 1, 0, ["y"])
    ensures AppendMsg(n, 1) == AppendEntries(n.currentTerm, 0, 0, 0, ["x", "y"])
  {
    assert n.log[2..] == [Entry(2, "y")];
    assert Commands(n.log[2..]) == ["y"];
    assert n.log[1..] == [Entry(1, "x"), Entry(2, "y")];
    assert Commands(n.log[1..]) == ["x", "y"];
  }

  /** a has stepped down before its second section, which now sends x under the label of term 2. */
  lemma LateSend(s: Group, p: Policy, a: nat, b: nat) returns (tr: Trace)
    requires Init(s) && Mesh(s) && a in s.nodes && b in s.nodes && a != b && !p.guarded
    ensures From(s, p, tr)
    ensures Now(tr).nodes == s.nodes[a := Deposed(s.nodes[a], b)][b := Successor(s.nodes[b])]
    ensures Packet(a, b, AppendEntries(2, 0, 0, 0, ["x"])) in Now(tr).net
    ensures Now(tr).elected == {(1, a), (2, b)}
  {
    tr := SecondLeader(s, p, a, b);
    tr := SendAct(s, p, tr, a, b, SendProposed);
    FirstMessage(Now(tr).nodes[a]);
  }

  /** After that, a itself accepts y from b. */
  lemma LateAccept(s: Group, p: Policy, a: nat, b: nat) returns (tr: Trace)
    requires Init(s) && Mesh(s) && a in s.nodes && b in s.nodes && a != b && !p.guarded
    ensures From(s, p, tr) && a in Now(tr).nodes && b in Now(tr).nodes
    ensures Now(tr).nodes[a].log == [SENTINEL, Entry(1, "x"), Entry(2, "y")]
    ensures Now(tr).nodes[b] == Successor(s.nodes[b])
    ensures Packet(a, b, AppendEntries(2, 0, 0, 0, ["x"])) in Now(tr).net
    ensures Packet(a, b, AppendReply(2, true, 2)) in Now(tr).net
    ensures Now(tr).elected == {(1, a), (2, b)}
  {
    tr := LateSend(s, p, a, b);
    tr := SendAct(s, p, tr, b, a, Broadcast);
    SecondMessage(Now(tr).nodes[b]);
    tr := DeliverAct(s, p, tr, a, b, AppendEntries(2, 1, 1, 0, ["y"]));
  }

  /** In every group: the former leader's message makes b, the only leader of term 2, give up its own y; b proposes z.
      Now a holds y and b holds z, both at index 2 with label 2. */
  lemma FormerLeaderBreaksMatching(s: Group, p: Policy, a: nat, b: nat) returns (tr: Trace)
    requires Init(s) && Mesh(s) && a in s.nodes && b in s.nodes && a != b && !p.guarded
    ensures From(s, p, tr) && Diverged(Now(tr), a, b, 2) && OneLeaderPerTerm(Now(tr))
  {
    tr := LateAccept(s, p, a, b);
    tr := DeliverAct(s, p, tr, b, a, AppendEntries(2, 0, 0, 0, ["x"]));
    assert Now(tr).nodes[b].log == [SENTINEL, Entry(2, "x")];
    tr := ProposeAct(s, p, tr, b, "z");
    assert Now(tr).elected == {(1, a), (2, b)};
  }

  // ---- the exact condition ----

  /** Log matching, exactly: in a fully connected group it holds in every run if and only if the second section of
      propose is run by leaders only, votes are counted in their own term only, and there are at most three members. */
  lemma LogMatchingExactly(s: Group, p: Policy)
    requires Init(s) && Mesh(s) && s.nodes != map[]
    ensures LogsMatchAlways(s, p) <==> p.guarded && p.timely && |s.nodes| <= 3
  {
    if p.guarded && p.timely && |s.nodes| <= 3 {
      forall tr | From(s, p, tr)
        ensures LogsMatch(tr.states)
      {
        SmallGroupLogMatching(p, tr.states, tr.acts);
      }
    } else if !p.guarded {
      var a :| a in s.nodes;
      var b := OtherMember(s, a);
      var tr := FormerLeaderBreaksMatching(s, p, a, b);
      DivergedMismatch(tr, a, b, 2);
    } else {
      var tr, a, b := TwoLeaders(s, p);
      tr := TwoLeadersDiverge(s, p, tr, a, b);
      DivergedMismatch(tr, a, b, 1);
    }
  }

  lemma DivergedMismatch(tr: Trace, a: nat, b: nat, k: nat)
    requires tr.states != [] && Diverged(Now(tr), a, b, k)
    ensures !LogsMatch(tr.states)
  {
    var last := |tr.states| - 1;
    assert !LogsAgree(tr.states[last].nodes[a].log, tr.states[last].nodes[b].log);
  }

  // ---- labels themselves ----

  lemma AppendMsgShape(n: Node, next: nat)
    requires 1 <= next < |n.log| < U64
    ensures var m := AppendMsg(n, next);
            && m.term == n.currentTerm && m.prevIdx == next - 1
            && m.prevTerm == n.log[next - 1].term && |m.cmds| == |n.log| - next
  {
  }

  lemma AcceptedLabel(f: Node, from: nat, m: Msg, i: nat)
    requires Shaped(f) && m.AppendEntries? && m.term >= f.currentTerm && Consistent(f.log, m.prevIdx, m.prevTerm)
    requires m.prevIdx < i <= m.prevIdx + |m.cmds|
    ensures var f' := OnAppendEntries(f, from, m).node;
            i < |f'.log| && f'.log[i].term == m.term
  {
    MergeKeepsAndLabels(f.log, m.prevIdx + 1, m.term, m.cmds);
  }

  /** Whatever older labels a leader holds from a given index on, a follower that accepts the entries from there
      relabels every one of them with the leader's term. */
  lemma FollowerRelabels(leader: Node, next: nat, f: Node, from: nat, i: nat)
    requires leader.role.Leader? && Shaped(f)
    requires 1 <= next <= i < |leader.log| < U64
    requires f.currentTerm <= leader.currentTerm
    requires Consistent(f.log, next - 1, leader.log[next - 1].term)
    ensures var f' := OnAppendEntries(f, from, AppendMsg(leader, next)).node;
            i < |f'.log| && f'.log[i].term == leader.currentTerm
  {
    AppendMsgShape(leader, next);
    AcceptedLabel(f, from, AppendMsg(leader, next), i);
  }

  /** c lacks x, the entry before y, and has told b so. */
  lemma EntryMissing(s: Group, p: Policy, a: nat, b: nat, c: nat) returns (tr: Trace)
    requires Init(s) && Mesh(s) && {a, b, c} <= s.nodes.Keys && a != b && a != c && b != c
    ensures From(s, p, tr) && b in Now(tr).nodes && c in Now(tr).nodes
    ensures Now(tr).nodes[b] == Successor(s.nodes[b]) && Now(tr).nodes[c] == s.nodes[c].(currentTerm := 2)
    ensures Packet(c, b, AppendReply(2, false, 0)) in Now(tr).net
  {
    tr := SecondLeader(s, p, a, b);
    tr := SendAct(s, p, tr, b, c, Broadcast);
    SecondMessage(Now(tr).nodes[b]);
    tr := DeliverAct(s, p, tr, c, b, AppendEntries(2, 1, 1, 0, ["y"]));
  }

  /** b has stepped back by one and sent both entries. */
  lemma StepBack(s: Group, p: Policy, a: nat, b: nat, c: nat) returns (tr: Trace)
    requires Init(s) && Mesh(s) && {a, b, c} <= s.nodes.Keys && a != b && a != c && b != c
    ensures From(s, p, tr) && b in Now(tr).nodes && c in Now(tr).nodes
    ensures Now(tr).nodes[b].log == [SENTINEL, Entry(1, "x"), Entry(2, "y")]
    ensures Now(tr).nodes[c] == s.nodes[c].(currentTerm := 2)
    ensures Packet(b, c, AppendEntries(2, 0, 0, 0, ["x", "y"])) in Now(tr).net
  {
    tr := EntryMissing(s, p, a, b, c);
    tr := DeliverAct(s, p, tr, b, c, AppendReply(2, false, 0));
    SecondMessage(Now(tr).nodes[b]);
  }

  /** Labels do not match even where commands do: from three members on, under every policy, b and c come to hold the
      same label at index 2 above different labels at index 1, because c relabels what it accepts. */
  lemma LabelsDiffer(s: Group, p: Policy, a: nat, b: nat, c: nat) returns (tr: Trace)
    requires Init(s) && Mesh(s) && {a, b, c} <= s.nodes.Keys && a != b && a != c && b != c
    ensures From(s, p, tr) && b in Now(tr).nodes && c in Now(tr).nodes
    ensures Now(tr).nodes[b].log == [SENTINEL, Entry(1, "x"), Entry(2, "y")]
    ensures Now(tr).nodes[c].log == [SENTINEL, Entry(2, "x"), Entry(2, "y")]
  {
    tr := StepBack(s, p, a, b, c);
    tr := DeliverAct(s, p, tr, c, b, AppendEntries(2, 0, 0, 0, ["x", "y"]));
  }
}

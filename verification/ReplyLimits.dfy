/** Exactly when no leader reads beyond its log: runs of the code in which one does, for every fully connected group. */
module ReplyLimits {
  import opened Wrappers
  import opened Decimal
  import opened Sequences
  import opened CommitRule
  import opened Raft
  import opened RaftInvariant
  import opened RaftGroup
  import opened GroupRuns
  import opened ElectionLimits
  import opened LogLimits
  import opened ReplySafety

  /** No run from s under the policy ends in the undefined read. */
  ghost predicate NeverOutOfRange(s: Group, p: Policy) {
    forall tr, a :: From(s, p, tr) ==> !OutOfRange(p, Now(tr), a)
  }

  ghost predicate DistinctPeers(s: Group) {
    forall id :: id in s.nodes ==> Distinct(s.nodes[id].peers)
  }

  // ---- a leader with an empty log among members with longer ones ----

  /** The message that brings x, and an empty heartbeat, of term t. */
  function Entries(t: nat): Msg {
    AppendEntries(t, 0, 0, 0, ["x"])
  }

  function Heartbeat(t: nat): Msg {
    AppendEntries(t, 0, 0, 0, [])
  }

  /** b leads term t with an empty log; a has one entry and has sent it to the others, b has sent heartbeats. */
  ghost predicate Stage(s: Group, g: Group, a: nat, b: nat, t: nat) {
    && SamePeers(s, g) && a in g.nodes && b in g.nodes && a != b && 0 < t < U64 - 10
    && EmptyLeader(g.nodes[b]) && g.nodes[b].commitIndex == 0 && g.nodes[b].currentTerm == t
    && g.nodes[a].currentTerm == t && |g.nodes[a].log| == 2 && Shaped(g.nodes[a])
    && (forall c :: c in g.nodes && c != b ==> Packet(b, c, Heartbeat(t)) in g.net)
    && (forall c :: c in g.nodes && c != b && c != a ==> Idle(g.nodes[c], t) && Packet(a, c, Entries(t)) in g.net)
  }

  /** A member with an empty log takes x. */
  lemma TakesEntry(n: Node, a: nat, t: nat)
    requires Idle(n, t) && 0 < t
    ensures var n' := OnAppendEntries(n, a, Entries(t)).node;
            n'.log == [SENTINEL, Entry(t, "x")] && n'.currentTerm == t && Shaped(n') && n'.peers == n.peers
  {
  }

  /** A member with one entry answers a heartbeat with its last index. */
  lemma AnswersHeartbeat(n: Node, b: nat, t: nat)
    requires Shaped(n) && |n.log| == 2 && n.currentTerm == t
    ensures var e := OnAppendEntries(n, b, Heartbeat(t));
            e.sent == [Envelope(b, AppendReply(t, true, 1))] && e.node.peers == n.peers && |e.node.log| == 2
  {
  }

  /** One more member has answered. */
  lemma OneReplies(s: Group, p: Policy, tr: Trace, a: nat, b: nat, t: nat, c: nat) returns (tr': Trace, n': Node)
    requires From(s, p, tr) && c in Now(tr).nodes && b in Now(tr).nodes && c != b && 0 < t
    requires Packet(b, c, Heartbeat(t)) in Now(tr).net
    requires if c == a then Now(tr).nodes[c].currentTerm == t && |Now(tr).nodes[c].log| == 2 && Shaped(Now(tr).nodes[c])
             else Idle(Now(tr).nodes[c], t) && Packet(a, c, Entries(t)) in Now(tr).net
    ensures From(s, p, tr') && Moved(tr, tr', c, n') && n'.peers == Now(tr).nodes[c].peers
    ensures Replied(Now(tr'), c, b, t, 1)
  {
    tr' := tr;
    if c != a {
      TakesEntry(Now(tr).nodes[c], a, t);
      tr' := DeliverAct(s, p, tr', c, a, Entries(t));
    }
    AnswersHeartbeat(Now(tr').nodes[c], b, t);
    tr' := DeliverAct(s, p, tr', c, b, Heartbeat(t));
    n' := Now(tr').nodes[c];
  }

  /** The first k peers of b have answered since the stage g; nobody else has moved. */
  ghost predicate Answered(g: Group, h: Group, b: nat, t: nat, k: nat)
    requires b in g.nodes && k <= |g.nodes[b].peers|
  {
    && h.nodes.Keys == g.nodes.Keys && g.net <= h.net
    && (forall c :: c in g.nodes && c !in g.nodes[b].peers[..k] ==> h.nodes[c] == g.nodes[c])
    && (forall i :: 0 <= i < k ==> Replied(h, g.nodes[b].peers[i], b, t, 1))
  }

  /** The next peer to answer is as the stage has it. */
  lemma NextPeer(s: Group, g: Group, h: Group, a: nat, b: nat, t: nat, k: nat)
    requires Stage(s, g, a, b, t) && PeersOk(g, b) && Distinct(g.nodes[b].peers) && k < |g.nodes[b].peers|
    requires Answered(g, h, b, t, k)
    ensures var c := g.nodes[b].peers[k];
            && c in h.nodes && b in h.nodes && c != b && Packet(b, c, Heartbeat(t)) in h.net
            && if c == a then h.nodes[c].currentTerm == t && |h.nodes[c].log| == 2 && Shaped(h.nodes[c])
               else Idle(h.nodes[c], t) && Packet(a, c, Entries(t)) in h.net
  {
    var peers := g.nodes[b].peers;
    assert peers[k] in peers && peers[k] !in peers[..k];
  }

  lemma {:induction false} AllReply(s: Group, p: Policy, tr: Trace, g: Group, a: nat, b: nat, t: nat, k: nat)
    returns (tr': Trace)
    requires From(s, p, tr) && Stage(s, g, a, b, t) && PeersOk(g, b) && Distinct(g.nodes[b].peers)
    requires k <= |g.nodes[b].peers| && Answered(g, Now(tr), b, t, k)
    ensures From(s, p, tr') && Answered(g, Now(tr'), b, t, |g.nodes[b].peers|)
    decreases |g.nodes[b].peers| - k
  {
    var peers := g.nodes[b].peers;
    if k == |peers| {
      tr' := tr;
    } else {
      var c := peers[k];
      NextPeer(s, g, Now(tr), a, b, t, k);
      var n';
      tr', n' := OneReplies(s, p, tr, a, b, t, c);
      OneMoreAnswer(g, Now(tr), Now(tr'), b, t, k);
      tr' := AllReply(s, p, tr', g, a, b, t, k + 1);
    }
  }

  lemma OneMoreAnswer(g: Group, h: Group, h': Group, b: nat, t: nat, k: nat)
    requires b in g.nodes && k < |g.nodes[b].peers| && Answered(g, h, b, t, k)
    requires h'.nodes.Keys == h.nodes.Keys && h.net <= h'.net && Replied(h', g.nodes[b].peers[k], b, t, 1)
    requires forall c :: c in h.nodes && c != g.nodes[b].peers[k] ==> h'.nodes[c] == h.nodes[c]
    ensures Answered(g, h', b, t, k + 1)
  {
    var peers := g.nodes[b].peers;
    assert peers[..k + 1] == peers[..k] + [peers[k]];
    forall i | 0 <= i < k + 1
      ensures Replied(h', peers[i], b, t, 1)
    {
      assert i < k ==> Replied(h, peers[i], b, t, 1);
    }
  }

  // ---- the replies reach the leader ----

  function Ones(k: nat, n: nat): seq<nat> {
    seq(n, i => if i < k then 1 else 0)
  }

  lemma {:induction false} CountOnes(k: nat, n: nat)
    requires k <= n
    ensures CountAtLeast(Ones(k, n) + [0], 1) == k
    decreases n
  {
    var s := Ones(k, n) + [0];
    if n == 0 {
      assert s == [0] && s[1..] == [];
    } else {
      var k' := if k == 0 then 0 else k - 1;
      CountOnes(k', n - 1);
      assert s[1..] == Ones(k', n - 1) + [0];
    }
  }

  lemma {:induction false} PeerAt(peers: seq<nat>, i: nat)
    requires Distinct(peers) && i < |peers|
    ensures PeerIndex(peers, peers[i]) == i
  {
    if i == 0 {
    } else {
      PeerAt(peers[1..], i - 1);
    }
  }

  /** The leader b after k replies. */
  function AfterReplies(n: Node, k: nat): Node {
    n.(nextIndex := seq(|n.peers|, i => if i < k then 2 else 1), matchIndex := Ones(k, |n.peers|))
  }

  /** One more reply: the leader records it as long as there is no quorum, and then reads beyond its log. */
  lemma OneMoreReply(n: Node, k: nat, t: nat)
    requires EmptyLeader(n) && n.commitIndex == 0 && n.currentTerm == t && Distinct(n.peers) && k < |n.peers|
    ensures var m, r := AfterReplies(n, k), AppendReply(t, true, 1);
            && Shaped(m)
            && if k + 1 < Quorum(|n.peers|)
               then OnAppendReply(m, n.peers[k], r) == Some(Effect(AfterReplies(n, k + 1), []))
               else OnAppendReply(m, n.peers[k], r).None?
  {
    var m := AfterReplies(n, k);
    PeerAt(n.peers, k);
    CountOnes(k + 1, |n.peers|);
    assert Ones(k, |n.peers|)[k := 1] == Ones(k + 1, |n.peers|);
    assert m.nextIndex[k := 2] == AfterReplies(n, k + 1).nextIndex;
    CommitPointCounts(Ones(k + 1, |n.peers|), 0, 1);
  }

  lemma {:induction false} RepliesArrive(s: Group, p: Policy, tr: Trace, n: Node, b: nat, t: nat, k: nat)
    returns (tr': Trace, act: Action)
    requires From(s, p, tr) && EmptyLeader(n) && n.commitIndex == 0 && n.currentTerm == t && Distinct(n.peers)
    requires b in Now(tr).nodes && Now(tr).nodes[b] == AfterReplies(n, k) && k < Quorum(|n.peers|)
    requires forall i :: 0 <= i < |n.peers| ==> Replied(Now(tr), n.peers[i], b, t, 1)
    ensures From(s, p, tr') && OutOfRange(p, Now(tr'), act)
    decreases |n.peers| - k
  {
    var r := AppendReply(t, true, 1);
    act := Action(b, Receive(n.peers[k], r));
    OneMoreReply(n, k, t);
    assert Replied(Now(tr), n.peers[k], b, t, 1);
    if k + 1 < Quorum(|n.peers|) {
      tr' := DeliverAct(s, p, tr, b, n.peers[k], r);
      forall i | 0 <= i < |n.peers|
        ensures Replied(Now(tr'), n.peers[i], b, t, 1)
      {
        assert Replied(Now(tr), n.peers[i], b, t, 1);
      }
      tr', act := RepliesArrive(s, p, tr', n, b, t, k + 1);
    } else {
      tr' := tr;
    }
  }

  /** From the stage on, the other members' replies make b read beyond its log. */
  lemma StageFails(s: Group, p: Policy, tr: Trace, a: nat, b: nat, t: nat) returns (tr': Trace, act: Action)
    requires Init(s) && From(s, p, tr) && Stage(s, Now(tr), a, b, t) && DistinctPeers(s)
    ensures From(s, p, tr') && OutOfRange(p, Now(tr'), act)
  {
    var g := Now(tr);
    var n := g.nodes[b];
    assert n.peers == s.nodes[b].peers && PeersOk(s, b);
    tr' := AllReply(s, p, tr, g, a, b, t, 0);
    assert b !in n.peers[..|n.peers|] by { assert n.peers[..|n.peers|] == n.peers; }
    assert AfterReplies(n, 0) == n by {
      assert AfterReplies(n, 0).nextIndex == n.nextIndex && AfterReplies(n, 0).matchIndex == n.matchIndex;
    }
    tr', act := RepliesArrive(s, p, tr', n, b, t, 0);
  }

  // ---- two leaders of one term ----

  lemma EmptyHeartbeat(n: Node, q: nat)
    requires n.log == [SENTINEL] && n.commitIndex == 0 && Sized(n)
    requires n.nextIndex == seq(|n.peers|, _ => 1) && q in n.peers
    ensures MessageFor(n, q) == Heartbeat(n.currentTerm)
  {
  }

  lemma OneEntryMessage(n: Node, q: nat, x: nat)
    requires n.log == [SENTINEL, Entry(x, "x")] && n.commitIndex == 0 && Sized(n)
    requires n.nextIndex == seq(|n.peers|, _ => 1) && q in n.peers
    ensures MessageFor(n, q) == Entries(n.currentTerm)
  {
    assert n.log[1..] == [Entry(x, "x")];
    assert Commands(n.log[1..]) == ["x"];
  }

  /** A member with x from some term x', and nextIndex 1 for every peer. */
  predicate Holder(n: Node, x: nat, t: nat) {
    && n.log == [SENTINEL, Entry(x, "x")] && n.commitIndex == 0 && n.currentTerm == t && 0 < t < U64 - 10 && Sized(n)
    && n.nextIndex == seq(|n.peers|, _ => 1)
  }

  /** b leads term t with an empty log, and a holds x; nobody else has anything. */
  ghost predicate Scene(s: Group, g: Group, a: nat, b: nat, x: nat, t: nat) {
    && SamePeers(s, g) && a in g.nodes && b in g.nodes && a != b && Holder(g.nodes[a], x, t)
    && EmptyLeader(g.nodes[b]) && g.nodes[b].commitIndex == 0 && g.nodes[b].currentTerm == t
    && forall c :: c in g.nodes && c != a && c != b ==> Idle(g.nodes[c], t)
  }

  lemma SendsEntry(s: Group, p: Policy, tr: Trace, a: nat, x: nat, t: nat, input: Input) returns (tr': Trace)
    requires From(s, p, tr) && a in Now(tr).nodes && Holder(Now(tr).nodes[a], x, t)
    requires input.Broadcast? || input.SendProposed?
    requires !Now(tr).nodes[a].role.Leader? ==> input.SendProposed? && !p.guarded
    requires input.SendProposed? ==> a in Now(tr).proposing
    ensures From(s, p, tr') && Now(tr').nodes == Now(tr).nodes && Now(tr).net <= Now(tr').net
    ensures forall c :: c in Now(tr).nodes[a].peers ==> Packet(a, c, Entries(t)) in Now(tr').net
  {
    var n := Now(tr).nodes[a];
    tr' := SendAllAct(s, p, tr, a, input);
    forall c | c in n.peers
      ensures Packet(a, c, Entries(t)) in Now(tr').net
    {
      OneEntryMessage(n, c, x);
    }
  }

  lemma SendsHeartbeat(s: Group, p: Policy, tr: Trace, b: nat, t: nat) returns (tr': Trace)
    requires From(s, p, tr) && b in Now(tr).nodes && EmptyLeader(Now(tr).nodes[b])
    requires Now(tr).nodes[b].commitIndex == 0 && Now(tr).nodes[b].currentTerm == t
    ensures From(s, p, tr') && Now(tr').nodes == Now(tr).nodes && Now(tr).net <= Now(tr').net
    ensures forall c :: c in Now(tr).nodes[b].peers ==> Packet(b, c, Heartbeat(t)) in Now(tr').net
  {
    var n := Now(tr).nodes[b];
    tr' := SendAllAct(s, p, tr, b, Broadcast);
    forall c | c in n.peers
      ensures Packet(b, c, Heartbeat(t)) in Now(tr').net
    {
      EmptyHeartbeat(n, c);
    }
  }

  lemma SceneIsStage(s: Group, g: Group, a: nat, b: nat, x: nat, t: nat)
    requires Mesh(s) && Scene(s, g, a, b, x, t)
    requires forall c :: c in g.nodes[a].peers ==> Packet(a, c, Entries(t)) in g.net
    requires forall c :: c in g.nodes[b].peers ==> Packet(b, c, Heartbeat(t)) in g.net
    ensures Stage(s, g, a, b, t)
  {
    forall c | c in g.nodes && c != b
      ensures c in g.nodes[b].peers && (c != a ==> c in g.nodes[a].peers)
    {
    }
  }

  lemma SceneFails(s: Group, p: Policy, tr: Trace, a: nat, b: nat, x: nat, t: nat, input: Input)
    returns (tr': Trace, act: Action)
    requires Init(s) && Mesh(s) && DistinctPeers(s) && From(s, p, tr) && Scene(s, Now(tr), a, b, x, t)
    requires input.Broadcast? || input.SendProposed?
    requires !Now(tr).nodes[a].role.Leader? ==> input.SendProposed? && !p.guarded
    requires input.SendProposed? ==> a in Now(tr).proposing
    ensures From(s, p, tr') && OutOfRange(p, Now(tr'), act)
  {
    tr' := SendsEntry(s, p, tr, a, x, t, input);
    tr' := SendsHeartbeat(s, p, tr', b, t);
    SceneIsStage(s, Now(tr'), a, b, x, t);
    tr', act := StageFails(s, p, tr', a, b, t);
  }

  /** Two leaders of one term: one of them proposes. */
  lemma TwoLeadersFail(s: Group, p: Policy, tr: Trace, a: nat, b: nat) returns (tr': Trace, act: Action)
    requires Init(s) && Mesh(s) && DistinctPeers(s)
    requires From(s, p, tr) && TwoLead(Now(tr), a, b) && SamePeers(s, Now(tr)) && Now(tr).nodes[a].currentTerm > 0
    ensures From(s, p, tr') && OutOfRange(p, Now(tr'), act)
  {
    var t := Now(tr).nodes[a].currentTerm;
    assert Idle(Now(tr).nodes[a], t) && Idle(Now(tr).nodes[b], t);
    tr' := ProposeAct(s, p, tr, a, "x");
    ProposedScene(s, Now(tr), Now(tr'), a, b, t);
    tr', act := SceneFails(s, p, tr', a, b, t, t, Broadcast);
  }

  lemma ProposedScene(s: Group, g: Group, h: Group, a: nat, b: nat, t: nat)
    requires TwoLead(g, a, b) && SamePeers(s, g) && g.nodes[a].currentTerm == t > 0
    requires h.nodes == g.nodes[a := g.nodes[a].(log := g.nodes[a].log + [Entry(t, "x")])]
    ensures Scene(s, h, a, b, t, t)
  {
    assert Idle(g.nodes[a], t) && Idle(g.nodes[b], t);
    assert h.nodes[a].log == [SENTINEL, Entry(t, "x")];
    forall c | c in h.nodes && c != a && c != b
      ensures Idle(h.nodes[c], t)
    {
      assert Idle(g.nodes[c], t);
    }
  }

  // ---- a second section of propose run by a former leader ----

  /** A leader with this log, as it comes out of the election of term t with last index i. */
  function LeaderWith(n: Node, t: nat, log: seq<Entry>, next: nat): Node {
    n.(role := Leader, currentTerm := t, votedFor := Some(n.id), log := log,
       nextIndex := seq(|n.peers|, _ => next), matchIndex := seq(|n.peers|, _ => 0))
  }

  /** What winning an election makes of a member. */
  lemma WinnerIs(n: Node, t: nat, log: seq<Entry>)
    requires |log| > 0 && n.voteCount == 0
    ensures BecomeLeader(n.(role := Candidate, currentTerm := t, votedFor := Some(n.id), voteCount := 1, log := log))
         == LeaderWith(n, t, log, |log|)
  {
  }

  /** a proposes x in term 1; b wins term 2 with c's vote and an empty log. */
  lemma RivalElected(s: Group, p: Policy, a: nat, b: nat, c: nat) returns (tr: Trace)
    requires Init(s) && Mesh(s) && {a, b, c} <= s.nodes.Keys && a != b && a != c && b != c
    ensures From(s, p, tr) && a in Now(tr).proposing
    ensures Now(tr).nodes == s.nodes[a := Proposer(s.nodes[a])][b := LeaderWith(s.nodes[b], 2, [SENTINEL], 1)]
                                    [c := s.nodes[c].(currentTerm := 2, votedFor := Some(b))]
  {
    tr := FirstProposal(s, p, a, c);
    tr := TimeoutAct(s, p, tr, b, c);
    tr := TimeoutAct(s, p, tr, b, c);
    tr := GrantAct(s, p, tr, c, b, RequestVote(2, 0, 0));
    WinnerIs(s.nodes[b], 2, [SENTINEL]);
    tr := WinAct(s, p, tr, b, c, 2);
  }

  /** A heartbeat of b then deposes a. */
  lemma ProposerDeposed(s: Group, p: Policy, a: nat, b: nat, c: nat) returns (tr: Trace)
    requires Init(s) && Mesh(s) && {a, b, c} <= s.nodes.Keys && a != b && a != c && b != c
    ensures From(s, p, tr) && Scene(s, Now(tr), a, b, 1, 2) && a in Now(tr).proposing
  {
    tr := RivalElected(s, p, a, b, c);
    var g := Now(tr);
    tr := SendAct(s, p, tr, b, a, Broadcast);
    EmptyHeartbeat(LeaderWith(s.nodes[b], 2, [SENTINEL], 1), a);
    HeartbeatDeposes(Proposer(s.nodes[a]), b);
    tr := DeliverAct(s, p, tr, a, b, Heartbeat(2));
    IsScene(s, g, Now(tr), a, b, c);
  }

  lemma IsScene(s: Group, g: Group, h: Group, a: nat, b: nat, c: nat)
    requires Init(s) && {a, b, c} <= s.nodes.Keys && a != b && a != c && b != c
    requires g.nodes == s.nodes[a := Proposer(s.nodes[a])][b := LeaderWith(s.nodes[b], 2, [SENTINEL], 1)]
                               [c := s.nodes[c].(currentTerm := 2, votedFor := Some(b))]
    requires h.nodes == g.nodes[a := g.nodes[a].(role := Follower, currentTerm := 2, votedFor := None, voteCount := 0)]
    ensures Scene(s, h, a, b, 1, 2)
  {
  }

  lemma HeartbeatDeposes(n: Node, b: nat)
    requires Shaped(n) && Sized(n) && n.currentTerm == 1
    ensures OnAppendEntries(n, b, Heartbeat(2)).node
         == n.(role := Follower, currentTerm := 2, votedFor := None, voteCount := 0)
  {
  }

  /** With two members: b has given up y for a's late message, and then hears from a that y was accepted. */
  lemma TwoMembersFail(s: Group, p: Policy, a: nat, b: nat) returns (tr: Trace, act: Action)
    requires Init(s) && Mesh(s) && DistinctPeers(s) && |s.nodes| <= 2 && a in s.nodes && b in s.nodes && a != b
    requires !p.guarded
    ensures From(s, p, tr) && OutOfRange(p, Now(tr), act)
  {
    tr := LateAccept(s, p, a, b);
    tr := DeliverAct(s, p, tr, b, a, AppendEntries(2, 0, 0, 0, ["x"]));
    var n := Now(tr).nodes[b];
    assert n.log == [SENTINEL, Entry(2, "x")];
    OnePeer(s, a, b);
    act := Action(b, Receive(a, AppendReply(2, true, 2)));
    LonePeerReply(n, a);
  }

  lemma OnePeer(s: Group, a: nat, b: nat)
    requires Init(s) && Mesh(s) && DistinctPeers(s) && |s.nodes| <= 2 && a in s.nodes && b in s.nodes && a != b
    ensures s.nodes[b].peers == [a]
  {
    var peers := s.nodes[b].peers;
    assert PeersOk(s, b) && a in peers;
    forall i | 0 <= i < |peers|
      ensures peers[i] == a
    {
      assert peers[i] in peers;
      OnlyTwo(s.nodes.Keys, b, peers[i], a);
    }
    DistinctCount(peers, {a});
  }

  lemma LonePeerReply(n: Node, a: nat)
    requires n.role.Leader? && n.peers == [a] && Sized(n) && |n.log| == 2 && n.commitIndex == 0 && n.currentTerm == 2
    ensures OnAppendReply(n, a, AppendReply(2, true, 2)).None?
  {
    assert n.matchIndex[0 := 2] == [2];
    assert [2] + [1] == [2, 1];
    assert SortDesc([2, 1]) == [2, 1] by { assert [2, 1][1..] == [1] && [1][1..] == []; }
  }

  // ---- a success reply of an earlier term ----

  /** b has led term 1 with c's vote and proposed x and y, which nobody else has. */
  function LogXY(): seq<Entry> {
    [SENTINEL, Entry(1, "x"), Entry(1, "y")]
  }

  lemma ProposerIs(n: Node, log: seq<Entry>)
    ensures Proposer(n).(log := log) == LeaderWith(n, 1, log, 1)
  {
  }

  lemma LongFirstLeader(s: Group, p: Policy, b: nat, c: nat) returns (tr: Trace)
    requires Init(s) && Mesh(s) && b in s.nodes && c in s.nodes && b != c
    ensures From(s, p, tr)
    ensures Now(tr).nodes == s.nodes[b := LeaderWith(s.nodes[b], 1, LogXY(), 1)]
                                    [c := s.nodes[c].(currentTerm := 1, votedFor := Some(b))]
  {
    tr := FirstElection(s, p, b, c);
    ProposerIs(s.nodes[b], [SENTINEL]);
    tr := ProposeAct(s, p, tr, b, "x");
    tr := ProposeAct(s, p, tr, b, "y");
    assert [SENTINEL] + [Entry(1, "x")] + [Entry(1, "y")] == LogXY();
  }

  /** a wins term 2 with c's vote, and b answers its heartbeat with index 2. */
  lemma LongReply(s: Group, p: Policy, a: nat, b: nat, c: nat) returns (tr: Trace)
    requires Init(s) && Mesh(s) && {a, b, c} <= s.nodes.Keys && a != b && a != c && b != c
    ensures From(s, p, tr) && Packet(b, a, AppendReply(2, true, 2)) in Now(tr).net
    ensures Now(tr).nodes == s.nodes[a := LeaderWith(s.nodes[a], 2, [SENTINEL], 1)]
                                    [b := LeaderWith(s.nodes[b], 2, LogXY(), 1).(role := Follower, votedFor := None)]
                                    [c := s.nodes[c].(currentTerm := 2, votedFor := Some(a))]
  {
    tr := SecondElection(s, p, a, b, c);
    tr := SendAct(s, p, tr, a, b, Broadcast);
    EmptyHeartbeat(Now(tr).nodes[a], b);
    HeartbeatDeposes(Now(tr).nodes[b], a);
    tr := DeliverAct(s, p, tr, b, a, Heartbeat(2));
  }

  lemma SecondElection(s: Group, p: Policy, a: nat, b: nat, c: nat) returns (tr: Trace)
    requires Init(s) && Mesh(s) && {a, b, c} <= s.nodes.Keys && a != b && a != c && b != c
    ensures From(s, p, tr)
    ensures Now(tr).nodes == s.nodes[a := LeaderWith(s.nodes[a], 2, [SENTINEL], 1)]
                                    [b := LeaderWith(s.nodes[b], 1, LogXY(), 1)]
                                    [c := s.nodes[c].(currentTerm := 2, votedFor := Some(a))]
  {
    tr := LongFirstLeader(s, p, b, c);
    tr := TimeoutAct(s, p, tr, a, c);
    tr := TimeoutAct(s, p, tr, a, c);
    tr := GrantAct(s, p, tr, c, a, RequestVote(2, 0, 0));
    WinnerIs(s.nodes[a], 2, [SENTINEL]);
    tr := WinAct(s, p, tr, a, c, 2);
  }

  function LogZ(): seq<Entry> {
    [SENTINEL, Entry(2, "z")]
  }

  /** a proposes z and sends it to c. */
  lemma EntrySent(s: Group, p: Policy, a: nat, b: nat, c: nat) returns (tr: Trace)
    requires Init(s) && Mesh(s) && {a, b, c} <= s.nodes.Keys && a != b && a != c && b != c
    ensures From(s, p, tr) && Packet(b, a, AppendReply(2, true, 2)) in Now(tr).net
    ensures Packet(a, c, AppendEntries(2, 0, 0, 0, ["z"])) in Now(tr).net
    ensures Now(tr).nodes == s.nodes[a := LeaderWith(s.nodes[a], 2, LogZ(), 1)]
                                    [b := LeaderWith(s.nodes[b], 2, LogXY(), 1).(role := Follower, votedFor := None)]
                                    [c := s.nodes[c].(currentTerm := 2, votedFor := Some(a))]
  {
    tr := LongReply(s, p, a, b, c);
    tr := ProposeAct(s, p, tr, a, "z");
    assert [SENTINEL] + [Entry(2, "z")] == LogZ();
    tr := SendAct(s, p, tr, a, c, Broadcast);
    EntryZ(Now(tr).nodes[a]);
  }

  /** c takes z from a. */
  lemma EntryShared(s: Group, p: Policy, a: nat, b: nat, c: nat) returns (tr: Trace)
    requires Init(s) && Mesh(s) && {a, b, c} <= s.nodes.Keys && a != b && a != c && b != c
    ensures From(s, p, tr) && Packet(b, a, AppendReply(2, true, 2)) in Now(tr).net
    ensures Now(tr).nodes == s.nodes[a := LeaderWith(s.nodes[a], 2, LogZ(), 1)]
                                    [b := LeaderWith(s.nodes[b], 2, LogXY(), 1).(role := Follower, votedFor := None)]
                                    [c := s.nodes[c].(currentTerm := 2, votedFor := Some(a), log := LogZ())]
  {
    tr := EntrySent(s, p, a, b, c);
    tr := DeliverAct(s, p, tr, c, a, AppendEntries(2, 0, 0, 0, ["z"]));
    assert Merge([SENTINEL], 1, 2, ["z"]) == LogZ();
  }

  lemma EntryZ(n: Node)
    requires n.log == LogZ() && n.commitIndex == 0
    ensures AppendMsg(n, 1) == AppendEntries(n.currentTerm, 0, 0, 0, ["z"])
    ensures AppendMsg(n, 2) == AppendEntries(n.currentTerm, 1, 2, 0, [])
  {
    assert n.log[1..] == [Entry(2, "z")];
    assert Commands(n.log[1..]) == ["z"];
  }

  function LogZW(): seq<Entry> {
    [SENTINEL, Entry(2, "z"), Entry(3, "w")]
  }

  /** The three after c has won term 3 with b's vote and proposed w, and a has voted for c as well. */
  function Third(s: Group, a: nat, b: nat, c: nat): map<nat, Node>
    requires {a, b, c} <= s.nodes.Keys
  {
    s.nodes[a := LeaderWith(s.nodes[a], 3, LogZ(), 1).(role := Follower, votedFor := Some(c))]
           [b := LeaderWith(s.nodes[b], 3, LogXY(), 1).(role := Follower, votedFor := Some(c))]
           [c := LeaderWith(s.nodes[c], 3, LogZW(), 2)]
  }

  lemma ThirdElection(s: Group, p: Policy, a: nat, b: nat, c: nat) returns (tr: Trace)
    requires Init(s) && Mesh(s) && {a, b, c} <= s.nodes.Keys && a != b && a != c && b != c
    ensures From(s, p, tr) && Packet(b, a, AppendReply(2, true, 2)) in Now(tr).net
    ensures Packet(b, c, VoteReply(3, true)) in Now(tr).net
    ensures Now(tr).nodes == s.nodes[a := LeaderWith(s.nodes[a], 3, LogZ(), 1).(role := Follower, votedFor := Some(c))]
                                    [b := LeaderWith(s.nodes[b], 3, LogXY(), 1).(role := Follower, votedFor := Some(c))]
                                    [c := Candidacy(s.nodes[c].(currentTerm := 2, log := LogZ()))]
  {
    tr := EntryShared(s, p, a, b, c);
    tr := TimeoutAllAct(s, p, tr, c);
    tr := GrantAct(s, p, tr, b, c, RequestVote(3, 1, 2));
    tr := GrantAct(s, p, tr, a, c, RequestVote(3, 1, 2));
  }

  lemma ThirdLeader(s: Group, p: Policy, a: nat, b: nat, c: nat) returns (tr: Trace)
    requires Init(s) && Mesh(s) && {a, b, c} <= s.nodes.Keys && a != b && a != c && b != c
    ensures From(s, p, tr) && Packet(b, a, AppendReply(2, true, 2)) in Now(tr).net
    ensures Now(tr).nodes == Third(s, a, b, c)
  {
    tr := ThirdElection(s, p, a, b, c);
    WinnerIs(s.nodes[c], 3, LogZ());
    tr := WinAct(s, p, tr, c, b, 3);
    tr := ProposeAct(s, p, tr, c, "w");
    assert LogZ() + [Entry(3, "w")] == LogZW();
  }

  /** a wins term 4 with b's vote; its log still ends at index 1. */
  lemma FourthLeader(s: Group, p: Policy, a: nat, b: nat, c: nat) returns (tr: Trace)
    requires Init(s) && Mesh(s) && {a, b, c} <= s.nodes.Keys && a != b && a != c && b != c
    ensures From(s, p, tr) && Packet(b, a, AppendReply(2, true, 2)) in Now(tr).net
    ensures a in Now(tr).nodes && Now(tr).nodes[a] == LeaderWith(s.nodes[a], 4, LogZ(), 2)
    ensures c in Now(tr).nodes && Now(tr).nodes[c] == LeaderWith(s.nodes[c], 3, LogZW(), 2)
  {
    tr := ThirdLeader(s, p, a, b, c);
    tr := TimeoutAct(s, p, tr, a, b);
    tr := GrantAct(s, p, tr, b, a, RequestVote(4, 1, 2));
    WinnerIs(s.nodes[a], 4, LogZ());
    tr := WinAct(s, p, tr, a, b, 4);
  }

  /** c, whose log goes on after a's, answers a's heartbeat with index 2. */
  lemma OneLongReply(s: Group, p: Policy, a: nat, b: nat, c: nat) returns (tr: Trace)
    requires Init(s) && Mesh(s) && {a, b, c} <= s.nodes.Keys && a != b && a != c && b != c
    ensures From(s, p, tr) && Packet(b, a, AppendReply(2, true, 2)) in Now(tr).net
    ensures Packet(c, a, AppendReply(4, true, 2)) in Now(tr).net
    ensures a in Now(tr).nodes && Now(tr).nodes[a] == LeaderWith(s.nodes[a], 4, LogZ(), 2)
  {
    tr := FourthLeader(s, p, a, b, c);
    tr := SendAct(s, p, tr, a, c, Broadcast);
    EntryZ(Now(tr).nodes[a]);
    LongerAnswer(Now(tr).nodes[c], a);
    tr := DeliverAct(s, p, tr, c, a, AppendEntries(4, 1, 2, 0, []));
  }

  lemma LongerAnswer(n: Node, a: nat)
    requires Shaped(n) && n.log == LogZW() && n.currentTerm == 3
    ensures var e := OnAppendEntries(n, a, AppendEntries(4, 1, 2, 0, []));
            e.sent == [Envelope(a, AppendReply(4, true, 2))] && |e.node.log| == 3
  {
  }

  /** Two peers: one reply beyond the log is harmless, two are not, whatever their terms. */
  lemma SecondReply(n: Node, i: nat, j: nat)
    requires n.role.Leader? && Distinct(n.peers) && |n.peers| == 2 && i < 2 && j < 2 && i != j && n.currentTerm == 4
    requires n.log == LogZ() && n.commitIndex == 0
    requires n.nextIndex == seq(2, _ => 2) && n.matchIndex == seq(2, _ => 0)
    ensures var m := n.(nextIndex := n.nextIndex[i := 3], matchIndex := n.matchIndex[i := 2]);
            && OnAppendReply(n, n.peers[i], AppendReply(4, true, 2)) == Some(Effect(m, []))
            && OnAppendReply(m, n.peers[j], AppendReply(2, true, 2)).None?
  {
    PeerAt(n.peers, i);
    PeerAt(n.peers, j);
    var one, two := n.matchIndex[i := 2], n.matchIndex[i := 2][j := 2];
    assert one == if i == 0 then [2, 0] else [0, 2];
    assert two == [2, 2];
    CountTwo(one[0], one[1], 1, 2);
    CountTwo(one[0], one[1], 1, 1);
    CountTwo(2, 2, 1, 2);
    CommitPointCounts(one, 1, 2);
    CommitPointCounts(one, 1, 1);
    CommitPointCounts(two, 1, 2);
  }

  lemma CountTwo(x: nat, y: nat, z: nat, b: nat)
    ensures CountAtLeast([x, y] + [z], b)
         == (if x >= b then 1 else 0) + (if y >= b then 1 else 0) + (if z >= b then 1 else 0)
  {
    var s := [x, y] + [z];
    assert s[1..] == [y, z] && [y, z][1..] == [z] && [z][1..] == [];
    assert CountAtLeast([z], b) == if z >= b then 1 else 0;
    assert CountAtLeast([y, z], b) == (if y >= b then 1 else 0) + CountAtLeast([z], b);
  }

  lemma TwoPeers(s: Group, a: nat, b: nat, c: nat) returns (i: nat, j: nat)
    requires Init(s) && Mesh(s) && DistinctPeers(s) && |s.nodes| == 3
    requires {a, b, c} <= s.nodes.Keys && a != b && a != c && b != c
    ensures |s.nodes[a].peers| == 2 && i < 2 && j < 2 && i != j && s.nodes[a].peers[i] == c && s.nodes[a].peers[j] == b
  {
    var peers := s.nodes[a].peers;
    assert PeersOk(s, a) && b in peers && c in peers;
    forall x
      ensures x in peers <==> x in {b, c}
    {
      if x in peers && x != b {
        OnlyThree(s.nodes.Keys, a, b, c, x);
      }
    }
    DistinctCount(peers, {b, c});
    i, j := PeerIndex(peers, c), PeerIndex(peers, b);
  }

  /** With three members, timely votes and guarded second sections do not help: an old success reply of b, together with
      c's, makes a read beyond its log. */
  lemma StaleReplyFails(s: Group, p: Policy, a: nat, b: nat, c: nat) returns (tr: Trace, act: Action)
    requires Init(s) && Mesh(s) && DistinctPeers(s) && |s.nodes| == 3 && !p.current
    requires {a, b, c} <= s.nodes.Keys && a != b && a != c && b != c
    ensures From(s, p, tr) && OutOfRange(p, Now(tr), act)
  {
    tr := OneLongReply(s, p, a, b, c);
    var i, j := TwoPeers(s, a, b, c);
    tr, act := BothDelivered(s, p, tr, a, i, j);
  }

  lemma BothDelivered(s: Group, p: Policy, tr: Trace, a: nat, i: nat, j: nat) returns (tr': Trace, act: Action)
    requires From(s, p, tr) && !p.current && a in Now(tr).nodes && i < 2 && j < 2 && i != j
    requires a in s.nodes && |s.nodes[a].peers| == 2 && Distinct(s.nodes[a].peers)
    requires Now(tr).nodes[a] == LeaderWith(s.nodes[a], 4, LogZ(), 2) && s.nodes[a].commitIndex == 0
    requires Packet(s.nodes[a].peers[i], a, AppendReply(4, true, 2)) in Now(tr).net
    requires Packet(s.nodes[a].peers[j], a, AppendReply(2, true, 2)) in Now(tr).net
    ensures From(s, p, tr') && OutOfRange(p, Now(tr'), act)
  {
    var peers := s.nodes[a].peers;
    SecondReply(Now(tr).nodes[a], i, j);
    tr' := DeliverAct(s, p, tr, a, peers[i], AppendReply(4, true, 2));
    act := Action(a, Receive(peers[j], AppendReply(2, true, 2)));
  }

  // ---- the exact condition ----

  lemma ThreeMembers(s: Group, a: nat, b: nat) returns (c: nat)
    requires |s.nodes| >= 3 && a in s.nodes && b in s.nodes
    ensures c in s.nodes && c != a && c != b
  {
    var rest := s.nodes.Keys - {a, b};
    assert |s.nodes.Keys| == |s.nodes|;
    if rest == {} {
      assert s.nodes.Keys <= {a} + {b};
      SubsetSize(s.nodes.Keys, {a} + {b});
    }
    c :| c in rest;
  }

  /** Some run fails whenever one of the conditions does not hold. */
  lemma SomeRunFails(s: Group, p: Policy) returns (tr: Trace, act: Action)
    requires Init(s) && Mesh(s) && DistinctPeers(s) && s.nodes != map[]
    requires !(p.timely && p.guarded && |s.nodes| <= 3 && (p.current || |s.nodes| <= 2))
    ensures From(s, p, tr) && OutOfRange(p, Now(tr), act)
  {
    if !(p.timely && |s.nodes| <= 3) {
      var a, b;
      tr, a, b := TwoLeaders(s, p);
      LeaderTerm(s, p, tr, a);
      tr, act := TwoLeadersFail(s, p, tr, a, b);
    } else {
      var a :| a in s.nodes;
      var b := OtherMember(s, a);
      if |s.nodes| <= 2 {
        tr, act := TwoMembersFail(s, p, a, b);
      } else {
        var c := ThreeMembers(s, a, b);
        if !p.guarded {
          tr := ProposerDeposed(s, p, a, b, c);
          tr, act := SceneFails(s, p, tr, a, b, 1, 2, SendProposed);
        } else {
          tr, act := StaleReplyFails(s, p, a, b, c);
        }
      }
    }
  }

  lemma LeaderTerm(s: Group, p: Policy, tr: Trace, a: nat)
    requires From(s, p, tr) && a in Now(tr).nodes && Now(tr).nodes[a].role.Leader?
    ensures Now(tr).nodes[a].currentTerm > 0
  {
    BaseRun(tr.states, tr.acts, |tr.states| - 1);
    assert MemberOk(Now(tr), a);
  }

  /** In a fully connected group no run ever reads beyond a leader's log if and only if votes are counted in their own
      term, second sections of propose are run by leaders, there are at most three members, and, with three, success
      replies are counted in their own term too. */
  lemma NeverOutOfRangeExactly(s: Group, p: Policy)
    requires Init(s) && Mesh(s) && DistinctPeers(s) && s.nodes != map[]
    ensures NeverOutOfRange(s, p) <==>
              p.timely && p.guarded && |s.nodes| <= 3 && (p.current || |s.nodes| <= 2)
  {
    if p.timely && p.guarded && |s.nodes| <= 3 && (p.current || |s.nodes| <= 2) {
      forall tr, a | From(s, p, tr)
        ensures !OutOfRange(p, Now(tr), a)
      {
        NeverBeyond(p, tr.states, tr.acts, |tr.states| - 1, a);
      }
    } else {
      var tr, act := SomeRunFails(s, p);
    }
  }
}

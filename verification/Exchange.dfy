/** What a message and its answer achieve between two members of a Raft group (src/raft/RaftNode.cpp), whatever else
    the two hold: delivery of entries and of the commit index, catching up, stepping down, votes. */
module Exchange {
  import opened Wrappers
  import opened Decimal
  import opened Raft
  import opened RaftInvariant

  // ---- a leader's message, delivered ----

  /** The log of f has the entry before next, with the label that the sender's log has there. */
  predicate Meets(log: seq<Entry>, mine: seq<Entry>, next: nat) {
    next == 1
    || (1 < next <= |log| && log[next - 1].term == if next <= |mine| then mine[next - 1].term else 0)
  }

  /** Where both logs carry the sender's own label they carry the same command. */
  ghost predicate SameOwn(log: seq<Entry>, n: Node, next: nat) {
    forall i :: next <= i < |n.log| && i < |log| && log[i].term == n.currentTerm ==> log[i].command == n.log[i].command
  }

  /** Whoever gets a message of its own term or a later one is in that term afterwards and no candidate; its vote
      lasts if neither its term nor its role changes. */
  lemma RecipientFollows(f: Node, from: nat, m: Msg)
    requires Shaped(f) && m.AppendEntries? && m.term >= f.currentTerm
    ensures var f' := OnAppendEntries(f, from, m).node;
            && f'.currentTerm == m.term && !f'.role.Candidate?
            && (f'.role.Leader? <==> f.role.Leader? && m.term == f.currentTerm)
            && f'.votedFor == (if m.term == f.currentTerm && !f.role.Candidate? then f.votedFor else None)
            && f'.lastApplied == f.lastApplied
  {
  }

  /** Delivery of what a leader has for a member: it is accepted exactly when the logs meet. Then the member knows as
      much to be committed as the leader does, up to the end of its own log, and tells the leader where that is. */
  lemma Delivered(n: Node, next: nat, f: Node)
    requires 1 <= next <= |n.log| < U64 && Shaped(f) && f.currentTerm <= n.currentTerm
    ensures var e := OnAppendEntries(f, n.id, AppendMsg(n, next));
            && e.sent == [Envelope(n.id, if Meets(f.log, n.log, next)
                                         then AppendReply(n.currentTerm, true, |e.node.log| - 1)
                                         else AppendReply(n.currentTerm, false, 0))]
            && (Meets(f.log, n.log, next) ==>
                  e.node.commitIndex == if f.commitIndex >= n.commitIndex then f.commitIndex
                                        else if n.commitIndex < |e.node.log| then n.commitIndex
                                        else |e.node.log| - 1)
            && (!Meets(f.log, n.log, next) ==> e.node.log == f.log && e.node.commitIndex == f.commitIndex)
  {
    assert (next + U64 - 1) % U64 == next - 1;
  }

  /** Merging in entries whose commands repeat what is already there under the same label. */
  lemma MergeContents(log: seq<Entry>, next: nat, term: nat, cmds: seq<string>)
    requires next <= |log|
    requires forall i :: next <= i < next + |cmds| && i < |log| && log[i].term == term ==>
               log[i].command == cmds[i - next]
    ensures var r := Merge(log, next, term, cmds);
            && |r| >= next + |cmds| && r[..next] == log[..next]
            && (forall i :: next <= i < next + |cmds| ==> r[i] == Entry(term, cmds[i - next]))
            && if |log| > next + |cmds| && !Clashes(log, next, term, |cmds|) then r == log else |r| == next + |cmds|
  {
    var cut := MergeShape(log, next, term, cmds);
    if cut == next + |cmds| {
      assert !Clashes(log, next, term, |cmds|);
    } else {
      assert cut < |log| ==> log[cut].term != term;
    }
  }

  lemma MessageBuilt(n: Node, next: nat)
    requires 1 <= next <= |n.log| < U64
    ensures var m := AppendMsg(n, next);
            && m.term == n.currentTerm && m.prevIdx == next - 1 && |m.cmds| == |n.log| - next
            && forall i :: next <= i < |n.log| ==> m.cmds[i - next] == n.log[i].command
  {
    assert (next + U64 - 1) % U64 == next - 1;
  }

  /** And its log has every command of the leader's log from next on, under the leader's label. What lay beyond goes
      if any label changed, and stays otherwise. */
  lemma DeliveredLog(n: Node, next: nat, f: Node)
    requires 1 <= next <= |n.log| < U64 && Shaped(f) && f.currentTerm <= n.currentTerm
    requires Meets(f.log, n.log, next) && SameOwn(f.log, n, next)
    ensures var log := OnAppendEntries(f, n.id, AppendMsg(n, next)).node.log;
            && |log| >= |n.log| && log[..next] == f.log[..next]
            && (forall i :: next <= i < |n.log| ==> log[i] == Entry(n.currentTerm, n.log[i].command))
            && if |f.log| > |n.log| && forall i :: next <= i < |n.log| ==> f.log[i].term == n.currentTerm
               then log == f.log else |log| == |n.log|
  {
    var m := AppendMsg(n, next);
    MessageBuilt(n, next);
    Delivered(n, next, f);
    MergeContents(f.log, next, n.currentTerm, m.cmds);
    assert OnAppendEntries(f, n.id, m).node.log == Merge(f.log, next, n.currentTerm, m.cmds);
  }

  // ---- catching up ----

  /** A leader, another member, and the leader's message to it that is on its way. */
  datatype Link = Link(leader: Node, member: Node, msg: Msg)

  function NextFor(n: Node, peer: nat): nat
    requires Sized(n) && peer in n.peers
  {
    n.nextIndex[PeerIndex(n.peers, peer)]
  }

  ghost predicate Linked(k: Link) {
    && k.leader.role.Leader? && Shaped(k.leader) && |k.leader.log| < U64
    && Shaped(k.member) && k.member.currentTerm <= k.leader.currentTerm && k.member.id in k.leader.peers
    && 1 <= NextFor(k.leader, k.member.id) < U64
    && k.msg == AppendMsg(k.leader, NextFor(k.leader, k.member.id))
  }

  /** The message is delivered; the answer tells whether it was refused. */
  function Answer(k: Link): Effect
    requires Linked(k)
  {
    OnAppendEntries(k.member, k.leader.id, k.msg)
  }

  predicate Refused(k: Link)
    requires Linked(k)
  {
    !Answer(k).sent[0].msg.success
  }

  /** A refusal comes exactly where the logs do not meet, and changes neither log. */
  lemma RefusedExactly(k: Link)
    requires Linked(k)
    ensures Refused(k) <==> !Meets(k.member.log, k.leader.log, NextFor(k.leader, k.member.id))
    ensures Refused(k) ==>
              && Answer(k).node.log == k.member.log && Answer(k).node.id == k.member.id
              && Answer(k).node.currentTerm == k.leader.currentTerm && Shaped(Answer(k).node)
              && Answer(k).sent == [Envelope(k.leader.id, AppendReply(k.leader.currentTerm, false, 0))]
  {
    var next := NextFor(k.leader, k.member.id);
    assert (next + U64 - 1) % U64 == next - 1;
  }

  /** What the refusal makes of the leader: it goes back by one entry and sends again at once. */
  function Again(k: Link): (r: Link)
    requires Linked(k) && Refused(k)
    ensures Linked(r) && NextFor(r.leader, r.member.id) == NextFor(k.leader, k.member.id) - 1
    ensures r.leader.log == k.leader.log && r.member.log == k.member.log && r.member.id == k.member.id
    ensures r.leader.currentTerm == k.leader.currentTerm && r.leader.peers == k.leader.peers
    ensures r.leader.id == k.leader.id && r.leader.commitIndex == k.leader.commitIndex
  {
    RefusedExactly(k);
    var e := OnAppendReply(k.leader, k.member.id, Answer(k).sent[0].msg).value;
    Link(e.node, Answer(k).node, e.sent[0].msg)
  }

  /** After a number of refusals, or fewer if the message is accepted before. */
  function Settle(k: Link, rounds: nat): (r: Link)
    requires Linked(k)
    ensures Linked(r) && r.leader.log == k.leader.log && r.member.log == k.member.log && r.member.id == k.member.id
    ensures r.leader.currentTerm == k.leader.currentTerm && r.leader.peers == k.leader.peers
    ensures r.leader.id == k.leader.id && r.leader.commitIndex == k.leader.commitIndex
    decreases rounds
  {
    if rounds == 0 || !Refused(k) then k else Settle(Again(k), rounds - 1)
  }

  /** Nothing meets between the last such entry and where the leader is. */
  ghost predicate LastMeeting(log: seq<Entry>, mine: seq<Entry>, next: nat, point: nat) {
    1 <= point <= next && Meets(log, mine, point) && forall j :: point < j <= next ==> !Meets(log, mine, j)
  }

  /** A leader and a member come to terms after exactly as many refusals as the leader has to go back to the last
      entry before which the logs meet, however far it was off. */
  lemma {:induction false} CatchUp(k: Link, point: nat, rounds: nat)
    requires Linked(k) && LastMeeting(k.member.log, k.leader.log, NextFor(k.leader, k.member.id), point)
    requires rounds <= NextFor(k.leader, k.member.id) - point
    ensures SettledAt(k, Settle(k, rounds), point, rounds)
    decreases rounds
  {
    if rounds == 0 {
      Settled(k, point);
    } else {
      OneBack(k, point);
      CatchUp(Again(k), point, rounds - 1);
      SettleMore(k, rounds);
    }
  }

  ghost predicate SettledAt(k: Link, r: Link, point: nat, rounds: nat)
    requires Linked(k) && Linked(r)
  {
    var next := NextFor(k.leader, k.member.id);
    NextFor(r.leader, r.member.id) == next - rounds && (Refused(r) <==> rounds < next - point)
  }

  lemma Settled(k: Link, point: nat)
    requires Linked(k) && LastMeeting(k.member.log, k.leader.log, NextFor(k.leader, k.member.id), point)
    ensures SettledAt(k, k, point, 0)
  {
    RefusedExactly(k);
  }

  lemma OneBack(k: Link, point: nat)
    requires Linked(k) && LastMeeting(k.member.log, k.leader.log, NextFor(k.leader, k.member.id), point)
    requires point < NextFor(k.leader, k.member.id)
    ensures Refused(k)
    ensures var k' := Again(k); LastMeeting(k'.member.log, k'.leader.log, NextFor(k'.leader, k'.member.id), point)
  {
    RefusedExactly(k);
  }

  lemma SettleMore(k: Link, rounds: nat)
    requires Linked(k) && Refused(k) && rounds > 0
    ensures Settle(k, rounds) == Settle(Again(k), rounds - 1)
  {
  }

  /** There always is such an entry: the logs meet at the sentinel. */
  lemma {:induction false} MeetingPoint(log: seq<Entry>, mine: seq<Entry>, next: nat) returns (point: nat)
    requires 1 <= next
    ensures LastMeeting(log, mine, next, point)
  {
    point := next;
    if !Meets(log, mine, next) {
      point := MeetingPoint(log, mine, next - 1);
    }
  }

  /** Once delivered, the message leaves the member with every command of the leader's log past the point. */
  ghost predicate Brings(k: Link, point: nat)
    requires Linked(k)
  {
    var log := Answer(k).node.log;
    && !Refused(k) && point <= |k.leader.log| <= |log| && point <= |k.member.log|
    && log[..point] == k.member.log[..point]
    && forall i :: point <= i < |k.leader.log| ==> log[i] == Entry(k.leader.currentTerm, k.leader.log[i].command)
  }

  /** The message that is then accepted does that. */
  lemma CaughtUp(k: Link, point: nat)
    requires Linked(k) && LastMeeting(k.member.log, k.leader.log, NextFor(k.leader, k.member.id), point)
    requires point <= |k.leader.log| && SameOwn(k.member.log, k.leader, point)
    ensures Brings(Settle(k, NextFor(k.leader, k.member.id) - point), point)
  {
    var rounds := NextFor(k.leader, k.member.id) - point;
    CatchUp(k, point, rounds);
    AcceptedAt(Settle(k, rounds), point);
  }

  lemma AcceptedAt(r: Link, point: nat)
    requires Linked(r) && NextFor(r.leader, r.member.id) == point <= |r.leader.log| && !Refused(r)
    requires SameOwn(r.member.log, r.leader, point)
    ensures Brings(r, point)
  {
    RefusedExactly(r);
    DeliveredLog(r.leader, point, r.member);
  }

  // ---- a success reply, and the heartbeat after it ----

  /** A member that answers with the leader's last index gets an empty heartbeat next, which leaves its log alone. It
      brings the member the leader's commit index exactly when the member holds the leader's label there; one that has
      relabelled the entry refuses it. */
  lemma UpToDateHeartbeat(n: Node, f: Node, m: Msg)
    requires n.role.Leader? && Shaped(n) && |n.log| < U64 && f.id in n.peers && n.commitIndex < |n.log|
    requires m.AppendReply? && m.success && m.term <= n.currentTerm && m.matchIdx == |n.log| - 1
    requires Shaped(f) && f.currentTerm <= n.currentTerm && |f.log| >= |n.log|
    requires OnAppendReply(n, f.id, m).Some?
    ensures var n' := OnAppendReply(n, f.id, m).value.node;
            && n'.role.Leader? && Sized(n') && NextFor(n', f.id) == |n.log|
            && var e := OnAppendEntries(f, n.id, AppendMsg(n', NextFor(n', f.id)));
            var known := |n.log| == 1 || f.log[|n.log| - 1].term == n.log[|n.log| - 1].term;
            && e.node.log == f.log && |e.sent| == 1 && (e.sent[0].msg.success <==> known)
            && e.node.commitIndex == if known && f.commitIndex < n'.commitIndex then n'.commitIndex else f.commitIndex
  {
    var n' := OnAppendReply(n, f.id, m).value.node;
    Delivered(n', |n.log|, f);
    MessageBuilt(n', |n.log|);
    assert n'.log == n.log;
  }

  // ---- senders of earlier terms ----

  /** A message of an earlier term changes nothing at its recipient, and the refusal brings its sender, leader or
      candidate, down to a follower in the recipient's term. */
  lemma StaleSenderStepsDown(n: Node, f: Node, m: Msg)
    requires Shaped(n) && Shaped(f) && m.term == n.currentTerm < f.currentTerm
    requires (n.role.Leader? && m.AppendEntries?) || (n.role.Candidate? && m.RequestVote?)
    ensures var e := NodeStep(f, Receive(n.id, m)).value;
            && e.node == f && |e.sent| == 1 && e.sent[0].dst == n.id
            && var r := NodeStep(n, Receive(f.id, e.sent[0].msg));
            && r.Some? && r.value.sent == [] && r.value.node.role.Follower?
            && r.value.node.currentTerm == f.currentTerm && r.value.node.votedFor.None?
            && r.value.node.log == n.log && r.value.node.commitIndex == n.commitIndex
  {
  }

  // ---- votes ----

  /** Log b is at least as new as log a: a later last label, or the same one and no fewer entries. */
  predicate AsNew(b: seq<Entry>, a: seq<Entry>)
    requires a != [] && b != []
  {
    b[|b| - 1].term > a[|a| - 1].term || (b[|b| - 1].term == a[|a| - 1].term && |b| >= |a|)
  }

  /** A candidate's request is granted exactly when the voter is free to vote in that term and the candidate's log is
      at least as new as its own; then the vote is recorded. */
  lemma VoteExactly(c: Node, f: Node, k: nat)
    requires NodeInv(c) && NodeInv(f) && k < |c.peers| && c.peers[k] == f.id
    ensures var m, t := VoteRequests(c, c.peers)[k], c.currentTerm;
            && m.dst == f.id
            && var e := NodeStep(f, Receive(c.id, m.msg)).value;
            && |e.sent| == 1 && e.sent[0].dst == c.id && e.sent[0].msg.VoteReply?
            && (e.sent[0].msg.granted <==>
                  && AsNew(c.log, f.log)
                  && (t > f.currentTerm || (t == f.currentTerm && (f.votedFor.None? || f.votedFor == Some(c.id)))))
            && (e.sent[0].msg.granted ==> e.node.votedFor == Some(c.id))
            && e.node.currentTerm == e.sent[0].msg.term == (if t > f.currentTerm then t else f.currentTerm)
            && e.node.log == f.log
  {
    var e := OnRequestVote(f, c.id, RequestVote(c.currentTerm, |c.log| - 1, LastTerm(c)));
    assert c.log[|c.log| - 1].term == LastTerm(c) && f.log[|f.log| - 1].term == LastTerm(f);
    assert UpToDate(f, |c.log| - 1, LastTerm(c)) <==> AsNew(c.log, f.log);
    assert VoteRequests(c, c.peers)[k] == Envelope(f.id, RequestVote(c.currentTerm, LastIndex(c), LastTerm(c)));
    assert NodeStep(f, Receive(c.id, VoteRequests(c, c.peers)[k].msg)).value == e;
  }

  /** Newness is a total preorder, and in a log with sorted labels every prefix is no newer than the whole: so among
      any members one has a log that all others would vote for. */
  lemma NewnessOrders(a: seq<Entry>, b: seq<Entry>, c: seq<Entry>)
    requires a != [] && b != [] && c != []
    ensures AsNew(a, b) || AsNew(b, a)
    ensures AsNew(a, b) && AsNew(b, c) ==> AsNew(a, c)
    ensures a <= b && TermsSorted(b) ==> AsNew(b, a) && (AsNew(a, b) ==> a == b)
  {
    if a <= b && TermsSorted(b) && a != b {
      assert b[|a| - 1] == a[|a| - 1];
    }
  }

  /** A granted reply makes a candidate lead exactly when it and the voters counted are more than half of its peers. */
  lemma WinsExactly(n: Node, m: Msg)
    requires Shaped(n) && n.role.Candidate? && m.VoteReply? && m.granted && m.term <= n.currentTerm
    ensures var n' := OnVoteReply(n, m).node;
            && (n'.role.Leader? <==> 2 * (n.voteCount + 1) > |n.peers|)
            && (!n'.role.Leader? ==> n' == n.(voteCount := n.voteCount + 1))
            && n'.currentTerm == n.currentTerm && n'.log == n.log
  {
  }

  /** The first message of a new leader, to each peer, is an empty one that asks about its own last entry; and nothing
      counts as stored at a peer before that peer has answered. */
  lemma NewLeaderProbes(n: Node, m: Msg, peer: nat)
    requires NodeInv(n) && |n.log| < U64 && n.role.Candidate? && m.VoteReply? && peer in n.peers
    requires OnVoteReply(n, m).node.role.Leader?
    ensures var n' := OnVoteReply(n, m).node;
            && Sized(n') && n'.matchIndex[PeerIndex(n'.peers, peer)] == 0
            && AppendMsg(n', NextFor(n', peer))
               == AppendEntries(n.currentTerm, |n.log| - 1, n.log[|n.log| - 1].term, n.commitIndex, [])
  {
    assert (|n.log| + U64 - 1) % U64 == |n.log| - 1;
  }

  // ---- what comes too late or to the wrong member ----

  /** Replies that a member is not waiting for change nothing: a success or refusal at a member that does not lead or
      does not know the sender, a vote at a member that is no candidate, a refused vote at a candidate. */
  lemma StrayReply(n: Node, from: nat, m: Msg)
    requires Shaped(n) && m.term <= n.currentTerm
    requires || (m.AppendReply? && (!n.role.Leader? || from !in n.peers))
             || (m.VoteReply? && (!n.role.Candidate? || !m.granted))
    ensures NodeStep(n, Receive(from, m)) == Some(Effect(n, []))
  {
  }

  /** A leader does not call elections; nobody else sends heartbeats or takes commands. */
  lemma OutOfRole(n: Node, cmd: string)
    requires Shaped(n)
    ensures if n.role.Leader? then NodeStep(n, Timeout) == Some(Effect(n, []))
            else NodeStep(n, Broadcast) == Some(Effect(n, [])) && NodeStep(n, Propose(cmd)) == Some(Effect(n, []))
  {
  }

  /** Any reply of a later term, to whoever is waiting for one, ends that wait in the later term. */
  lemma NewerReply(n: Node, from: nat, m: Msg)
    requires Shaped(n) && m.term > n.currentTerm
    requires (m.AppendReply? && n.role.Leader?) || (m.VoteReply? && n.role.Candidate?)
    ensures var r := NodeStep(n, Receive(from, m));
            && r.Some? && r.value.sent == [] && r.value.node.role.Follower? && r.value.node.currentTerm == m.term
            && r.value.node.votedFor.None? && r.value.node.log == n.log && r.value.node.commitIndex == n.commitIndex
  {
  }
}

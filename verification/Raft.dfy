/** One member of a Raft group (src/raft/RaftNode.cpp), as a state and its handlers. Messages are in decoded
    form. Every handler is one locked section of the source. */
module Raft {
  import opened Wrappers
  import opened Decimal
  import opened CommitRule

  datatype Entry = Entry(term: nat, command: string)

  datatype Role = Follower | Candidate | Leader

  datatype Msg =
    | AppendEntries(term: nat, prevIdx: nat, prevTerm: nat, leaderCommit: nat, cmds: seq<string>)
    | AppendReply(term: nat, success: bool, matchIdx: nat)
    | RequestVote(term: nat, lastIdx: nat, lastTerm: nat)
    | VoteReply(term: nat, granted: bool)

  datatype Envelope = Envelope(dst: nat, msg: Msg)

  datatype Node = Node(
    id: nat, peers: seq<nat>,
    currentTerm: nat, votedFor: Option<nat>, log: seq<Entry>,
    commitIndex: nat, lastApplied: nat,
    role: Role, nextIndex: seq<nat>, matchIndex: seq<nat>, voteCount: nat)

  /** The new state and the messages handed to the send callback. */
  datatype Effect = Effect(node: Node, sent: seq<Envelope>)

  const SENTINEL := Entry(0, "")

  /** The vectors a handler indexes have the sizes it relies on. */
  predicate Shaped(n: Node) {
    |n.log| > 0 && (n.role.Leader? ==> Sized(n))
  }

  /** One entry per peer; so it stays when a leader steps down. */
  predicate Sized(n: Node) {
    |n.nextIndex| == |n.matchIndex| == |n.peers|
  }

  function LastIndex(n: Node): nat
    requires |n.log| > 0
  {
    |n.log| - 1
  }

  function LastTerm(n: Node): nat {
    if |n.log| <= 1 then 0 else n.log[|n.log| - 1].term
  }

  // ---- role changes ----

  function BecomeFollower(n: Node, term: nat): Node {
    n.(role := Follower, currentTerm := term, votedFor := None, voteCount := 0)
  }

  /** The term counter is a uint64_t. */
  function BecomeCandidate(n: Node): Node {
    n.(role := Candidate, currentTerm := (n.currentTerm + 1) % U64, votedFor := Some(n.id), voteCount := 1)
  }

  function BecomeLeader(n: Node): Node
    requires |n.log| > 0
  {
    n.(role := Leader,
       nextIndex := seq(|n.peers|, _ => LastIndex(n) + 1),
       matchIndex := seq(|n.peers|, _ => 0),
       voteCount := 0)
  }

  // ---- sending ----

  /** std::find over the peers; the length when absent. */
  function PeerIndex(peers: seq<nat>, id: nat): (i: nat)
    ensures i <= |peers|
    ensures i < |peers| ==> peers[i] == id
    ensures i == |peers| ==> id !in peers
  {
    if peers == [] then 0 else if peers[0] == id then 0 else 1 + PeerIndex(peers[1..], id)
  }

  function Commands(log: seq<Entry>): (s: seq<string>)
    ensures |s| == |log| && forall i :: 0 <= i < |log| ==> s[i] == log[i].command
  {
    seq(|log|, i requires 0 <= i < |log| => log[i].command)
  }

  /** The message sendAppendEntries builds for a peer with the given nextIndex. */
  function AppendMsg(n: Node, next: nat): Msg {
    var prevIdx := (next + U64 - 1) % U64;
    AppendEntries(n.currentTerm, prevIdx, if prevIdx < |n.log| then n.log[prevIdx].term else 0, n.commitIndex,
                  if next < |n.log| then Commands(n.log[next..]) else [])
  }

  /** sendAppendEntries itself does not look at the role. */
  function SendAppend(n: Node, peer: nat): seq<Envelope>
    requires Sized(n)
  {
    var pi := PeerIndex(n.peers, peer);
    if pi >= |n.peers| then [] else [Envelope(peer, AppendMsg(n, n.nextIndex[pi]))]
  }

  /** The heartbeat loop, and the second locked section of propose. */
  function SendToAll(n: Node, peers: seq<nat>): seq<Envelope>
    requires Sized(n)
  {
    if peers == [] then []
    else SendToAll(n, peers[..|peers| - 1]) + SendAppend(n, peers[|peers| - 1])
  }

  function VoteRequests(n: Node, peers: seq<nat>): seq<Envelope>
    requires |n.log| > 0
  {
    seq(|peers|, i requires 0 <= i < |peers| =>
      Envelope(peers[i], RequestVote(n.currentTerm, LastIndex(n), LastTerm(n))))
  }

  // ---- the four handlers ----

  /** The append loop: an entry whose label differs from the message term cuts the log there; what lies past
      the end is pushed with the message term as its label. */
  function Merge(log: seq<Entry>, idx: nat, term: nat, cmds: seq<string>): (r: seq<Entry>)
    requires idx <= |log|
    decreases |cmds|
  {
    if cmds == [] then log
    else
      var kept := if idx < |log| && log[idx].term != term then log[..idx] else log;
      var log' := if idx >= |kept| then kept + [Entry(term, cmds[0])] else kept;
      Merge(log', idx + 1, term, cmds[1..])
  }

  function Min(a: nat, b: nat): nat {
    if a < b then a else b
  }

  /** The consistency check on the entry before the new ones. */
  predicate Consistent(log: seq<Entry>, prevIdx: nat, prevTerm: nat) {
    prevIdx == 0 || (prevIdx < |log| && log[prevIdx].term == prevTerm)
  }

  /** What a consistent message does to the log and the commit index. */
  function AcceptEntries(n: Node, m: Msg): (r: Node)
    requires m.AppendEntries? && m.prevIdx < |n.log|
    ensures |r.log| > 0
  {
    MergeLengthAtLeast(n.log, m.prevIdx + 1, m.term, m.cmds);
    var n1 := n.(log := Merge(n.log, m.prevIdx + 1, m.term, m.cmds));
    if m.leaderCommit > n1.commitIndex then n1.(commitIndex := Min(m.leaderCommit, LastIndex(n1))) else n1
  }

  function OnAppendEntries(n: Node, from: nat, m: Msg): Effect
    requires m.AppendEntries? && Shaped(n)
  {
    if m.term < n.currentTerm then
      Effect(n, [Envelope(from, AppendReply(n.currentTerm, false, 0))])
    else
      var n1 := if m.term > n.currentTerm || n.role.Candidate? then BecomeFollower(n, m.term) else n;
      if !Consistent(n1.log, m.prevIdx, m.prevTerm) then
        Effect(n1, [Envelope(from, AppendReply(n1.currentTerm, false, 0))])
      else
        var n2 := AcceptEntries(n1, m);
        Effect(n2, [Envelope(from, AppendReply(n2.currentTerm, true, LastIndex(n2)))])
  }

  /** advanceCommitIndex; None is the out-of-range read of log[newCommit]. */
  function AdvanceCommit(n: Node): Option<Node>
    requires Shaped(n) && n.role.Leader?
  {
    var newCommit := CommitPoint(n.matchIndex, LastIndex(n));
    if newCommit <= n.commitIndex then Some(n)
    else if newCommit >= |n.log| then None
    else if n.log[newCommit].term == n.currentTerm then Some(n.(commitIndex := newCommit))
    else Some(n)
  }

  /** handleAppendEntriesReply; None is undefined behaviour, as in AdvanceCommit. */
  function OnAppendReply(n: Node, from: nat, m: Msg): Option<Effect>
    requires m.AppendReply? && Shaped(n)
  {
    if !n.role.Leader? then Some(Effect(n, []))
    else if m.term > n.currentTerm then Some(Effect(BecomeFollower(n, m.term), []))
    else
      var pi := PeerIndex(n.peers, from);
      if pi >= |n.peers| then Some(Effect(n, []))
      else if m.success then
        var n1 := n.(nextIndex := n.nextIndex[pi := (m.matchIdx + 1) % U64],
                     matchIndex := n.matchIndex[pi := m.matchIdx]);
        var r := AdvanceCommit(n1);
        if r.None? then None else Some(Effect(r.value, []))
      else
        var n1 := if n.nextIndex[pi] > 1 then n.(nextIndex := n.nextIndex[pi := n.nextIndex[pi] - 1]) else n;
        Some(Effect(n1, SendAppend(n1, from)))
  }

  /** The candidate's log is at least as up to date as the voter's. */
  predicate UpToDate(n: Node, lastIdx: nat, lastTerm: nat)
    requires |n.log| > 0
  {
    lastTerm > LastTerm(n) || (lastTerm == LastTerm(n) && lastIdx >= LastIndex(n))
  }

  function OnRequestVote(n: Node, from: nat, m: Msg): Effect
    requires m.RequestVote? && Shaped(n)
  {
    if m.term < n.currentTerm then
      Effect(n, [Envelope(from, VoteReply(n.currentTerm, false))])
    else
      var n1 := if m.term > n.currentTerm then BecomeFollower(n, m.term) else n;
      if (n1.votedFor.None? || n1.votedFor.value == from) && UpToDate(n1, m.lastIdx, m.lastTerm) then
        Effect(n1.(votedFor := Some(from)), [Envelope(from, VoteReply(n1.currentTerm, true))])
      else
        Effect(n1, [Envelope(from, VoteReply(n1.currentTerm, false))])
  }

  /** handleRequestVoteReply: the reply's term is only compared for being newer. */
  function OnVoteReply(n: Node, m: Msg): Effect
    requires m.VoteReply? && Shaped(n)
  {
    if !n.role.Candidate? then Effect(n, [])
    else if m.term > n.currentTerm then Effect(BecomeFollower(n, m.term), [])
    else if !m.granted then Effect(n, [])
    else
      var n1 := n.(voteCount := n.voteCount + 1);
      Effect(if n1.voteCount >= |n1.peers| / 2 + 1 then BecomeLeader(n1) else n1, [])
  }

  // ---- all inputs of a node ----

  datatype Input =
    | Timeout
    | Broadcast
    | Propose(cmd: string)
    | SendProposed
    | Receive(from: nat, msg: Msg)
    | TakeApply

  /** takePendingApply: the entries handed out for application. */
  function PendingApply(n: Node): seq<Entry> {
    var lo, hi := Min(n.lastApplied + 1, |n.log|), Min(n.commitIndex + 1, |n.log|);
    if lo <= hi then n.log[lo..hi] else []
  }

  /** The first locked section of propose. */
  function OnPropose(n: Node, cmd: string): Effect
    requires Shaped(n)
  {
    if !n.role.Leader? then Effect(n, [])
    else
      var n1 := n.(log := n.log + [Entry(n.currentTerm, cmd)]);
      Effect(if n1.peers == [] then n1.(commitIndex := LastIndex(n1)) else n1, [])
  }

  /** One locked section. None stands for undefined behaviour of the C++ program. */
  function NodeStep(n: Node, input: Input): Option<Effect>
    requires Shaped(n)
  {
    match input
    case Timeout =>
      if n.role.Leader? then Some(Effect(n, []))
      else var n1 := BecomeCandidate(n); Some(Effect(n1, VoteRequests(n1, n1.peers)))
    case Broadcast => Some(Effect(n, if n.role.Leader? then SendToAll(n, n.peers) else []))
    case Propose(cmd) => Some(OnPropose(n, cmd))
    // the second locked section of propose sends whatever the role has become
    case SendProposed => if Sized(n) then Some(Effect(n, SendToAll(n, n.peers))) else None
    case Receive(from, m) => (
      match m
      case AppendEntries(_, _, _, _, _) => Some(OnAppendEntries(n, from, m))
      case AppendReply(_, _, _) => OnAppendReply(n, from, m)
      case RequestVote(_, _, _) => Some(OnRequestVote(n, from, m))
      case VoteReply(_, _) => Some(OnVoteReply(n, m)))
    case TakeApply =>
      Some(Effect(n.(lastApplied := if n.lastApplied < n.commitIndex then n.commitIndex else n.lastApplied), []))
  }

  /** A node that has just been constructed with no log on disk. */
  function Fresh(id: nat, peers: seq<nat>): Node {
    var n := Node(id, peers, 0, None, [SENTINEL], 0, 0, Follower, [], [], 0);
    if peers == [] then BecomeLeader(n) else n
  }

  // ---- what the append loop does ----

  lemma {:induction false} MergeLengthAtLeast(log: seq<Entry>, idx: nat, term: nat, cmds: seq<string>)
    requires idx <= |log|
    ensures |Merge(log, idx, term, cmds)| >= idx + |cmds|
    decreases |cmds|
  {
    if cmds == [] {
    } else {
      var kept := if idx < |log| && log[idx].term != term then log[..idx] else log;
      var log' := if idx >= |kept| then kept + [Entry(term, cmds[0])] else kept;
      MergeLengthAtLeast(log', idx + 1, term, cmds[1..]);
    }
  }

  /** Some entry in the range of the new ones carries another label. */
  ghost predicate Clashes(log: seq<Entry>, idx: nat, term: nat, count: nat) {
    exists i :: idx <= i < idx + count && i < |log| && log[i].term != term
  }

  /** Everything before the first new index stays, and each new index ends up with the message's label. */
  lemma {:induction false} MergeKeepsAndLabels(log: seq<Entry>, idx: nat, term: nat, cmds: seq<string>)
    requires idx <= |log|
    ensures var r := Merge(log, idx, term, cmds);
            |r| >= idx + |cmds| && r[..idx] == log[..idx]
            && forall i :: idx <= i < idx + |cmds| ==> r[i].term == term
    decreases |cmds|
  {
    if cmds == [] {
    } else {
      var kept := if idx < |log| && log[idx].term != term then log[..idx] else log;
      var log' := if idx >= |kept| then kept + [Entry(term, cmds[0])] else kept;
      MergeKeepsAndLabels(log', idx + 1, term, cmds[1..]);
      var r := Merge(log, idx, term, cmds);
      assert r[..idx] == r[..idx + 1][..idx];
      assert r[idx] == r[..idx + 1][idx];
    }
  }

  /** Either no label in the range clashed and the log only grew at its end, or it was cut at the first clash
      and refilled from the message. */
  lemma {:induction false} MergeShape(log: seq<Entry>, idx: nat, term: nat, cmds: seq<string>) returns (cut: nat)
    requires idx <= |log|
    ensures idx <= cut <= idx + |cmds| && cut <= |log|
    ensures forall i :: idx <= i < cut ==> log[i].term == term
    ensures cut < idx + |cmds| && cut < |log| ==> log[cut].term != term
    ensures Merge(log, idx, term, cmds)
         == if cut == idx + |cmds| then log
            else log[..cut] + seq(idx + |cmds| - cut,
                                  i requires 0 <= i < idx + |cmds| - cut => Entry(term, cmds[cut - idx + i]))
    decreases |cmds|
  {
    if cmds == [] {
      cut := idx;
    } else if idx < |log| && log[idx].term == term {
      cut := MergeShape(log, idx + 1, term, cmds[1..]);
    } else {
      cut := idx;
      var log' := log[..idx] + [Entry(term, cmds[0])];
      assert log[..|log|] == log;
      var cut' := MergeShape(log', idx + 1, term, cmds[1..]);
      assert log'[..idx + 1] == log';
    }
  }
}

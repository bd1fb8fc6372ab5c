/** What a Raft group can bring about, and in how many steps: electing a member, and getting a command to every member.
    The runs respect all three checks, or any of them. */
module GroupProgress {
  import opened Wrappers
  import opened Decimal
  import opened Sequences
  import opened CommitRule
  import opened Raft
  import opened RaftGroup
  import opened GroupRuns
  import opened Exchange
  import opened ReplyLimits

  // ---- an election ----

  /** A member that grants a vote in a later term. */
  function Voter(n: Node, c: nat, t: nat): Node {
    n.(role := Follower, currentTerm := t, votedFor := Some(c), voteCount := 0)
  }

  function RequestOf(n: Node): Msg
    requires |n.log| > 0
  {
    RequestVote(n.currentTerm + 1, LastIndex(n), LastTerm(n))
  }

  /** c has called an election since g, and the first k of its peers have voted for it. */
  ghost predicate Canvassed(g: Group, h: Group, c: nat, k: nat)
    requires c in g.nodes && |g.nodes[c].log| > 0 && k <= |g.nodes[c].peers|
  {
    var n := g.nodes[c];
    && h.nodes.Keys == g.nodes.Keys && h.proposing == g.proposing
    && h.nodes[c] == Candidacy(n).(voteCount := 1 + k)
    && (forall q :: q in n.peers ==> Packet(c, q, RequestOf(n)) in h.net)
    && (forall q :: q in g.nodes && q != c ==>
          h.nodes[q] == if q in n.peers[..k] then Voter(g.nodes[q], c, n.currentTerm + 1) else g.nodes[q])
  }

  /** No peer of c is in a later term or has a newer log. */
  ghost predicate Foremost(g: Group, c: nat)
    requires c in g.nodes
  {
    && MemberOk(g, c) && Small(g.nodes[c]) && Distinct(g.nodes[c].peers)
    && forall q :: q in g.nodes[c].peers ==>
         && q in g.nodes && MemberOk(g, q) && Small(g.nodes[q])
         && g.nodes[q].currentTerm <= g.nodes[c].currentTerm && AsNew(g.nodes[c].log, g.nodes[q].log)
  }

  lemma WouldGrant(g: Group, c: nat, q: nat)
    requires c in g.nodes && Foremost(g, c) && q in g.nodes[c].peers
    ensures UpToDate(g.nodes[q], LastIndex(g.nodes[c]), LastTerm(g.nodes[c]))
  {
    var n, f := g.nodes[c], g.nodes[q];
    assert n.log[|n.log| - 1].term == LastTerm(n) && f.log[|f.log| - 1].term == LastTerm(f);
  }

  /** The next peer votes. */
  lemma Granted(s: Group, p: Policy, tr: Trace, g: Group, c: nat, k: nat) returns (tr': Trace)
    requires c in g.nodes && Foremost(g, c) && k < |g.nodes[c].peers|
    requires From(s, p, tr) && Canvassed(g, Now(tr), c, k)
    ensures From(s, p, tr') && |tr'.acts| == |tr.acts| + 1
    ensures var n, q := g.nodes[c], g.nodes[c].peers[k];
            && q != c && Moved(tr, tr', q, Voter(g.nodes[q], c, n.currentTerm + 1))
            && Now(tr').proposing == g.proposing && Now(tr').nodes[c] == Candidacy(n).(voteCount := 1 + k)
            && Packet(q, c, VoteReply(n.currentTerm + 1, true)) in Now(tr').net
  {
    var n := g.nodes[c];
    var q := n.peers[k];
    assert q in n.peers && q !in n.peers[..k] && q != c;
    WouldGrant(g, c, q);
    tr' := GrantAct(s, p, tr, q, c, RequestOf(n));
  }

  lemma OneMoreVoter(g: Group, h: Group, h': Group, c: nat, k: nat)
    requires c in g.nodes && Foremost(g, c) && k < |g.nodes[c].peers| && Canvassed(g, h, c, k)
    requires var n, q := g.nodes[c], g.nodes[c].peers[k];
             h'.nodes == h.nodes[q := Voter(g.nodes[q], c, n.currentTerm + 1)]
                                [c := Candidacy(n).(voteCount := 2 + k)]
    requires h.net <= h'.net && h'.proposing == g.proposing
    ensures Canvassed(g, h', c, k + 1)
  {
    var n := g.nodes[c];
    assert n.peers[k] in n.peers && n.peers[..k + 1] == n.peers[..k] + [n.peers[k]];
  }

  /** The next peer votes and its reply is delivered. */
  lemma NextVote(s: Group, p: Policy, tr: Trace, g: Group, c: nat, k: nat) returns (tr': Trace)
    requires c in g.nodes && Foremost(g, c) && k < |g.nodes[c].peers|
    requires From(s, p, tr) && Canvassed(g, Now(tr), c, k)
    ensures From(s, p, tr') && |tr'.acts| == |tr.acts| + 2
    ensures if 2 * (k + 2) <= |g.nodes[c].peers| then Canvassed(g, Now(tr'), c, k + 1)
            else Elected(g, Now(tr'), c, k + 1)
  {
    var n := g.nodes[c];
    var m := VoteReply(n.currentTerm + 1, true);
    tr' := Granted(s, p, tr, g, c, k);
    WinsExactly(Now(tr').nodes[c], m);
    tr' := DeliverAct(s, p, tr', c, n.peers[k], m);
    if 2 * (k + 2) <= |n.peers| {
      OneMoreVoter(g, Now(tr), Now(tr'), c, k);
    } else {
      VotedIn(g, Now(tr), Now(tr'), c, k);
    }
  }

  /** c leads on the votes of its first v peers; nobody else has moved. */
  ghost predicate Elected(g: Group, h: Group, c: nat, v: nat)
    requires c in g.nodes && |g.nodes[c].log| > 0 && v <= |g.nodes[c].peers|
  {
    var n := g.nodes[c];
    && h.nodes.Keys == g.nodes.Keys && h.proposing == g.proposing
    && h.nodes[c] == BecomeLeader(Candidacy(n))
    && forall q :: q in g.nodes && q != c ==>
         h.nodes[q] == if q in n.peers[..v] then Voter(g.nodes[q], c, n.currentTerm + 1) else g.nodes[q]
  }

  lemma VotedIn(g: Group, h: Group, h': Group, c: nat, k: nat)
    requires c in g.nodes && Foremost(g, c) && k < |g.nodes[c].peers| && Canvassed(g, h, c, k)
    requires var q := g.nodes[c].peers[k];
             h'.nodes == h.nodes[q := Voter(g.nodes[q], c, g.nodes[c].currentTerm + 1)]
                                [c := BecomeLeader(Candidacy(g.nodes[c]))]
    requires h'.proposing == g.proposing
    ensures Elected(g, h', c, k + 1)
  {
    var n := g.nodes[c];
    assert n.peers[k] in n.peers && n.peers[..k + 1] == n.peers[..k] + [n.peers[k]];
  }

  lemma {:induction false} Votes(s: Group, p: Policy, tr: Trace, g: Group, c: nat, k: nat) returns (tr': Trace, v: nat)
    requires c in g.nodes && Foremost(g, c) && k < |g.nodes[c].peers| && (k > 0 ==> 2 * (k + 1) <= |g.nodes[c].peers|)
    requires From(s, p, tr) && Canvassed(g, Now(tr), c, k)
    ensures k < v <= |g.nodes[c].peers|
    ensures 2 * (v + 1) > |g.nodes[c].peers| && (v > 1 ==> 2 * v <= |g.nodes[c].peers|)
    ensures From(s, p, tr') && |tr'.acts| == |tr.acts| + 2 * (v - k) && Elected(g, Now(tr'), c, v)
    decreases |g.nodes[c].peers| - k
  {
    tr' := NextVote(s, p, tr, g, c, k);
    v := k + 1;
    if 2 * (k + 2) <= |g.nodes[c].peers| {
      tr', v := Votes(s, p, tr', g, c, k + 1);
    }
  }

  /** A member whose term and log no peer is ahead of can win the next election on one timeout, v grants and v replies,
      v being the smallest number with which it and the voters after the first are more than half of its peers. */
  lemma ForemostWins(s: Group, p: Policy, tr: Trace, c: nat) returns (tr': Trace, v: nat)
    requires From(s, p, tr) && c in Now(tr).nodes && !Now(tr).nodes[c].role.Leader? && Foremost(Now(tr), c)
    ensures 1 <= v <= |Now(tr).nodes[c].peers|
    ensures 2 * (v + 1) > |Now(tr).nodes[c].peers| && (v > 1 ==> 2 * v <= |Now(tr).nodes[c].peers|)
    ensures From(s, p, tr') && |tr'.acts| == |tr.acts| + 1 + 2 * v && Elected(Now(tr), Now(tr'), c, v)
  {
    tr' := TimeoutAllAct(s, p, tr, c);
    tr', v := Votes(s, p, tr', Now(tr), c, 0);
  }

  // ---- one command, to every member ----

  /** A member with nothing in its log. */
  predicate Blank(n: Node, t: nat) {
    !n.role.Leader? && n.currentTerm <= t && n.log == [SENTINEL] && n.commitIndex == 0 && n.lastApplied == 0
  }

  /** A member that has the command and knows how much of its log is committed. */
  predicate Has(n: Node, t: nat, cmd: string, commit: nat) {
    && !n.role.Leader? && n.currentTerm == t && n.log == [SENTINEL, Entry(t, cmd)]
    && n.commitIndex == commit && n.lastApplied == 0
  }

  /** The leader of term t after it has proposed the command and k peers have answered. */
  ghost predicate Collecting(n: Node, t: nat, cmd: string, k: nat) {
    && n.role.Leader? && n.currentTerm == t && 0 < t < U64 - 10 && n.log == [SENTINEL, Entry(t, cmd)]
    && n.lastApplied == 0 && |n.nextIndex| == |n.peers| && n.matchIndex == Ones(k, |n.peers|)
    && (forall i :: 0 <= i < |n.peers| ==> n.nextIndex[i] == if i < k then 2 else 1)
    && n.commitIndex == if k > 0 && 2 * (k + 1) > |n.peers| then 1 else 0
  }

  lemma {:induction false} CountAll(k: nat, n: nat, x: nat)
    requires k <= n
    ensures CountAtLeast(Ones(k, n) + [1], x) == if x == 0 then n + 1 else if x == 1 then k + 1 else 0
    decreases n
  {
    var l := Ones(k, n) + [1];
    if n == 0 {
      assert l == [1] && l[1..] == [];
    } else {
      var k' := if k == 0 then 0 else k - 1;
      CountAll(k', n - 1, x);
      assert l[1..] == Ones(k', n - 1) + [1];
    }
  }

  /** One more answer: the command is committed once the leader and the peers that answered are more than half. */
  lemma Collects(n: Node, t: nat, cmd: string, k: nat)
    requires Collecting(n, t, cmd, k) && k < |n.peers| && Distinct(n.peers)
    ensures var r := OnAppendReply(n, n.peers[k], AppendReply(t, true, 1));
            && r.Some? && r.value.sent == [] && Collecting(r.value.node, t, cmd, k + 1)
            && r.value.node.peers == n.peers
  {
    PeerAt(n.peers, k);
    var n1 := n.(nextIndex := n.nextIndex[k := 2], matchIndex := n.matchIndex[k := 1]);
    assert n1.matchIndex == Ones(k + 1, |n.peers|);
    var c := CommitPoint(n1.matchIndex, 1);
    CountAll(k + 1, |n.peers|, 0);
    CountAll(k + 1, |n.peers|, 1);
    CountAll(k + 1, |n.peers|, 2);
    CommitPointCounts(n1.matchIndex, 1, 1);
    CommitPointCounts(n1.matchIndex, 1, 2);
  }

  /** A member with an empty log takes the command, and answers with its last index. */
  lemma TakesCommand(n: Node, from: nat, t: nat, cmd: string, commit: nat)
    requires Blank(n, t) && n.peers != [] && commit <= 1 && 0 < t
    ensures var e := OnAppendEntries(n, from, AppendEntries(t, 0, 0, commit, [cmd]));
            && Has(e.node, t, cmd, commit) && e.sent == [Envelope(from, AppendReply(t, true, 1))]
            && e.node.peers == n.peers
  {
    var m := AppendEntries(t, 0, 0, commit, [cmd]);
    MergeContents([SENTINEL], 1, t, [cmd]);
    var log := Merge([SENTINEL], 1, t, [cmd]);
    assert log[..1] == [SENTINEL];
    assert log == [SENTINEL, Entry(t, cmd)];
  }

  /** A member that has it learns that it is committed. */
  lemma LearnsCommit(n: Node, from: nat, t: nat, cmd: string)
    requires Has(n, t, cmd, 0)
    ensures Has(OnAppendEntries(n, from, AppendEntries(t, 1, t, 1, [])).node, t, cmd, 1)
  {
  }

  /** The message that brings the command, and the heartbeat that says it is committed. */
  function Bring(t: nat, cmd: string, commit: nat): Msg {
    AppendEntries(t, 0, 0, commit, [cmd])
  }

  function Tell(t: nat): Msg {
    AppendEntries(t, 1, t, 1, [])
  }

  ghost predicate Around(h: Group, a: nat, peers: seq<nat>) {
    a in h.nodes && Distinct(peers) && forall i :: 0 <= i < |peers| ==> peers[i] in h.nodes && peers[i] != a
  }

  /** The first k peers of a have the command and have answered; it is on its way to all. */
  ghost predicate Spread(h: Group, a: nat, peers: seq<nat>, t: nat, cmd: string, k: nat) {
    && Around(h, a, peers) && h.nodes[a].peers == peers && Collecting(h.nodes[a], t, cmd, k)
    && forall i :: 0 <= i < |peers| ==>
         && Packet(a, peers[i], Bring(t, cmd, 0)) in h.net && h.nodes[peers[i]].peers != []
         && if i < k then Has(h.nodes[peers[i]], t, cmd, 0) else Blank(h.nodes[peers[i]], t)
  }

  lemma OneAnswer(s: Group, p: Policy, tr: Trace, a: nat, peers: seq<nat>, t: nat, cmd: string, k: nat)
    returns (tr': Trace)
    requires From(s, p, tr) && Spread(Now(tr), a, peers, t, cmd, k) && k < |peers|
    ensures From(s, p, tr') && |tr'.acts| == |tr.acts| + 2 && Spread(Now(tr'), a, peers, t, cmd, k + 1)
  {
    var q := peers[k];
    TakesCommand(Now(tr).nodes[q], a, t, cmd, 0);
    tr' := DeliverAct(s, p, tr, q, a, Bring(t, cmd, 0));
    Collects(Now(tr').nodes[a], t, cmd, k);
    tr' := DeliverAct(s, p, tr', a, q, AppendReply(t, true, 1));
  }

  lemma {:induction false} Answers(s: Group, p: Policy, tr: Trace, a: nat, peers: seq<nat>, t: nat, cmd: string,
                                   k: nat, v: nat)
    returns (tr': Trace)
    requires From(s, p, tr) && Spread(Now(tr), a, peers, t, cmd, k) && k <= v <= |peers|
    ensures From(s, p, tr') && |tr'.acts| == |tr.acts| + 2 * (v - k) && Spread(Now(tr'), a, peers, t, cmd, v)
    decreases v - k
  {
    tr' := tr;
    if k < v {
      tr' := OneAnswer(s, p, tr, a, peers, t, cmd, k);
      tr' := Answers(s, p, tr', a, peers, t, cmd, k + 1, v);
    }
  }

  /** The first k peers know that the command is committed; the others have the command or are about to get it. */
  ghost predicate Known(h: Group, a: nat, peers: seq<nat>, t: nat, cmd: string, v: nat, k: nat) {
    && Around(h, a, peers) && 0 < t < U64 - 10
    && h.nodes[a].log == [SENTINEL, Entry(t, cmd)] && h.nodes[a].commitIndex == 1 && h.nodes[a].lastApplied == 0
    && forall i :: 0 <= i < |peers| ==>
         && Packet(a, peers[i], if i < v then Tell(t) else Bring(t, cmd, 1)) in h.net && h.nodes[peers[i]].peers != []
         && if i < k then Has(h.nodes[peers[i]], t, cmd, 1)
            else if i < v then Has(h.nodes[peers[i]], t, cmd, 0)
            else Blank(h.nodes[peers[i]], t)
  }

  lemma {:induction false} AllLearn(s: Group, p: Policy, tr: Trace, a: nat, peers: seq<nat>, t: nat, cmd: string,
                                    v: nat, k: nat)
    returns (tr': Trace)
    requires From(s, p, tr) && Known(Now(tr), a, peers, t, cmd, v, k) && k <= |peers|
    ensures From(s, p, tr') && |tr'.acts| == |tr.acts| + |peers| - k && Known(Now(tr'), a, peers, t, cmd, v, |peers|)
    decreases |peers| - k
  {
    tr' := tr;
    if k < |peers| {
      var n := Now(tr).nodes[peers[k]];
      if k < v {
        LearnsCommit(n, a, t, cmd);
      } else {
        TakesCommand(n, a, t, cmd, 1);
      }
      tr' := DeliverAct(s, p, tr, peers[k], a, if k < v then Tell(t) else Bring(t, cmd, 1));
      tr' := AllLearn(s, p, tr', a, peers, t, cmd, v, k + 1);
    }
  }

  /** What the leader has for its peers: the command for those that have not answered, the news for those that have. */
  lemma MessagesFor(n: Node, t: nat, cmd: string, k: nat, i: nat)
    requires Collecting(n, t, cmd, k) && Distinct(n.peers) && i < |n.peers|
    ensures MessageFor(n, n.peers[i]) == if i < k then AppendEntries(t, 1, t, n.commitIndex, [])
                                         else Bring(t, cmd, n.commitIndex)
  {
    PeerAt(n.peers, i);
    assert n.log[1..] == [Entry(t, cmd)];
    assert Commands(n.log[1..]) == [cmd];
  }

  /** The first half: the leader proposes, sends, and has the answers of v peers. */
  lemma Proposed(s: Group, p: Policy, tr: Trace, a: nat, t: nat, cmd: string, v: nat) returns (tr': Trace)
    requires From(s, p, tr) && a in Now(tr).nodes && Around(Now(tr), a, Now(tr).nodes[a].peers)
    requires var n := Now(tr).nodes[a];
             && v <= |n.peers| && n.peers != [] && 0 < t < U64 - 10
             && n.role.Leader? && n.currentTerm == t && n.log == [SENTINEL]
             && n.commitIndex == 0 && n.lastApplied == 0
             && n.nextIndex == seq(|n.peers|, _ => 1) && n.matchIndex == seq(|n.peers|, _ => 0)
             && forall i :: 0 <= i < |n.peers| ==>
                  Blank(Now(tr).nodes[n.peers[i]], t) && Now(tr).nodes[n.peers[i]].peers != []
    ensures From(s, p, tr') && |tr'.acts| == |tr.acts| + 2 + 2 * v
    ensures Spread(Now(tr'), a, Now(tr).nodes[a].peers, t, cmd, v)
  {
    var peers := Now(tr).nodes[a].peers;
    tr' := ProposeAct(s, p, tr, a, cmd);
    var n := Now(tr').nodes[a];
    assert n.matchIndex == Ones(0, |peers|);
    forall i | 0 <= i < |peers|
      ensures MessageFor(n, peers[i]) == Bring(t, cmd, 0)
    {
      MessagesFor(n, t, cmd, 0, i);
    }
    tr' := SendAllAct(s, p, tr', a, SendProposed);
    forall i | 0 <= i < |peers|
      ensures Packet(a, peers[i], Bring(t, cmd, 0)) in Now(tr').net
    {
      assert peers[i] in n.peers;
    }
    tr' := Answers(s, p, tr', a, peers, t, cmd, 0, v);
  }

  /** The second half: one heartbeat, delivered to every peer. */
  lemma Announced(s: Group, p: Policy, tr: Trace, a: nat, peers: seq<nat>, t: nat, cmd: string, v: nat)
    returns (tr': Trace)
    requires From(s, p, tr) && Spread(Now(tr), a, peers, t, cmd, v) && 1 <= v <= |peers| < 2 * (v + 1)
    ensures From(s, p, tr') && |tr'.acts| == |tr.acts| + 1 + |peers|
    ensures Known(Now(tr'), a, peers, t, cmd, v, |peers|)
  {
    var n := Now(tr).nodes[a];
    tr' := SendAllAct(s, p, tr, a, Broadcast);
    forall i | 0 <= i < |peers|
      ensures Packet(a, peers[i], if i < v then Tell(t) else Bring(t, cmd, 1)) in Now(tr').net
    {
      MessagesFor(n, t, cmd, v, i);
      assert peers[i] in n.peers;
    }
    tr' := AllLearn(s, p, tr', a, peers, t, cmd, v, 0);
  }

  /** The first leader of a new group has an empty log, as has every peer. */
  lemma StartsEmpty(s: Group, h: Group, a: nat, v: nat)
    requires Init(s) && a in s.nodes && Distinct(s.nodes[a].peers) && v <= |s.nodes[a].peers| && Elected(s, h, a, v)
    ensures var peers := s.nodes[a].peers;
            && Around(h, a, peers) && h.nodes[a] == BecomeLeader(Candidacy(Fresh(a, peers)))
            && h.nodes[a].nextIndex == seq(|peers|, _ => 1) && h.nodes[a].matchIndex == Ones(0, |peers|)
            && forall i :: 0 <= i < |peers| ==> Blank(h.nodes[peers[i]], 1) && h.nodes[peers[i]].peers != []
  {
    var peers := s.nodes[a].peers;
    forall i | 0 <= i < |peers|
      ensures Blank(h.nodes[peers[i]], 1) && h.nodes[peers[i]].peers != [] && peers[i] in h.nodes && peers[i] != a
    {
      assert PeersOk(s, a) && peers[i] in peers;
    }
  }

  /** A new group, of any size, gets a command to every member: any member a can be elected by v of its peers, v being
      the smallest number with which it and they are enough, and the same number of answers commits the command. After
      the heartbeat that follows, every member has exactly this command to apply. */
  lemma CommandReachesAll(s: Group, p: Policy, a: nat, cmd: string) returns (tr: Trace, v: nat)
    requires Init(s) && a in s.nodes && Distinct(s.nodes[a].peers)
    ensures 1 <= v <= |s.nodes[a].peers| < 2 * (v + 1) && (v > 1 ==> 2 * v <= |s.nodes[a].peers|)
    ensures From(s, p, tr) && |tr.acts| == 4 + 4 * v + |s.nodes[a].peers|
    ensures forall q :: q == a || q in s.nodes[a].peers ==>
              && q in Now(tr).nodes && Now(tr).nodes[q].commitIndex == 1
              && PendingApply(Now(tr).nodes[q]) == [Entry(1, cmd)]
  {
    var peers := s.nodes[a].peers;
    InitBase(s);
    tr := Begin(s, p);
    assert Foremost(s, a);
    tr, v := ForemostWins(s, p, tr, a);
    StartsEmpty(s, Now(tr), a, v);
    tr := Proposed(s, p, tr, a, 1, cmd, v);
    tr := Announced(s, p, tr, a, peers, 1, cmd, v);
  }
}

/** When no leader ever reads beyond its log: what the replies in the network say about the log of the leader they are
    for. A follower reports its whole last index, so a report may be larger than the leader's log; but not one of a
    member that has voted for the leader. */
module ReplySafety {
  import opened Wrappers
  import opened Decimal
  import opened CommitRule
  import opened Raft
  import opened RaftInvariant
  import opened RaftGroup
  import opened ElectionSafety
  import opened LogMatching
  import Sequences

  // ---- single steps ----

  /** A log that changes ends with an entry of the current term. */
  lemma ChangedLog(n: Node, input: Input)
    requires NodeInv(n) && NodeStep(n, input).Some? && n.currentTerm > 0 && n.peers != []
    requires input.Receive? && input.msg.AppendEntries? ==> input.msg.term > 0
    ensures var n' := NodeStep(n, input).value.node;
            n'.log == n.log || (LastTerm(n') == n'.currentTerm && |n'.log| > 1)
  {
    if input.Receive? && input.msg.AppendEntries? {
      AcceptedLog(n, input.from, input.msg);
    }
  }

  /** Accepting entries: the log stays, or ends with an entry of the message's term, no earlier than the message. */
  lemma AcceptedLog(n: Node, from: nat, m: Msg)
    requires NodeInv(n) && m.AppendEntries?
    ensures var n' := OnAppendEntries(n, from, m).node;
            n'.log == n.log
            || (m.cmds != [] && LastTerm(n') == n'.currentTerm == m.term && LastIndex(n') >= m.prevIdx + |m.cmds| > 0)
  {
    if m.term >= n.currentTerm && Consistent(n.log, m.prevIdx, m.prevTerm) {
      var cut := MergeShape(n.log, m.prevIdx + 1, m.term, m.cmds);
    }
  }

  /** A candidate that stays one keeps its log. */
  lemma CandidateStays(n: Node, input: Input)
    requires NodeInv(n) && NodeStep(n, input).Some? && !TermWraps(n, input)
    requires var n' := NodeStep(n, input).value.node; n'.role.Candidate? && n'.currentTerm == n.currentTerm
    ensures n.role.Candidate? && NodeStep(n, input).value.node.log == n.log
  {
  }

  /** Vote requests are sent by new candidates, to peers, and describe their logs. */
  lemma SentRequest(n: Node, input: Input, k: nat)
    requires NodeInv(n) && NodeStep(n, input).Some? && !TermWraps(n, input)
    requires k < |NodeStep(n, input).value.sent| && NodeStep(n, input).value.sent[k].msg.RequestVote?
    ensures var e := NodeStep(n, input).value;
            && e.node.currentTerm == n.currentTerm + 1 && |e.node.log| > 0 && e.sent[k].dst in e.node.peers
            && e.sent[k].msg == RequestVote(e.node.currentTerm, LastIndex(e.node), LastTerm(e.node))
            && LastTerm(e.node) < e.node.currentTerm
  {
    if (input.Broadcast? && n.role.Leader?) || input.SendProposed? {
      NoRequests(n, n.peers, k);
    } else if input.Timeout? {
      var n' := BecomeCandidate(n);
      assert NodeStep(n, input).value.sent[k] == VoteRequests(n', n'.peers)[k];
      assert LastIndex(n') == LastIndex(n) && LastTerm(n') == LastTerm(n) && n.peers[k] in n.peers;
    }
  }

  lemma {:induction false} NoRequests(n: Node, peers: seq<nat>, k: nat)
    requires Sized(n) && k < |SendToAll(n, peers)|
    ensures SendToAll(n, peers)[k].msg.AppendEntries?
  {
    var init := peers[..|peers| - 1];
    if k < |SendToAll(n, init)| {
      NoRequests(n, init, k);
    }
  }

  /** A vote is granted to a candidate that is up to date. */
  lemma SentGrant(n: Node, input: Input, k: nat)
    requires NodeInv(n) && NodeStep(n, input).Some? && k < |NodeStep(n, input).value.sent|
    requires var m := NodeStep(n, input).value.sent[k].msg; m.VoteReply? && m.granted
    ensures var e := NodeStep(n, input).value;
            && input.Receive? && input.msg.RequestVote? && e.sent[k].dst == input.from
            && e.node.log == n.log && UpToDate(n, input.msg.lastIdx, input.msg.lastTerm)
  {
    if (input.Broadcast? && n.role.Leader?) || input.SendProposed? {
      NoRequests(n, n.peers, k);
    }
  }

  /** A success reply answers an accepted message, with the last index. */
  lemma SentReply(n: Node, input: Input, k: nat)
    requires NodeInv(n) && NodeStep(n, input).Some? && k < |NodeStep(n, input).value.sent|
    requires var m := NodeStep(n, input).value.sent[k].msg; m.AppendReply? && m.success
    ensures var e := NodeStep(n, input).value;
            && input.Receive? && input.msg.AppendEntries? && e.sent[k].dst == input.from
            && input.msg.term >= n.currentTerm && e.node.currentTerm == input.msg.term
            && |e.node.log| > 0 && e.sent[k].msg == AppendReply(input.msg.term, true, LastIndex(e.node))
            && AcceptedMsg(n, e.node, input.msg, input.msg.term, LastIndex(e.node))
  {
    if (input.Broadcast? && n.role.Leader?) || input.SendProposed? {
      NoRequests(n, n.peers, k);
    }
  }

  // ---- one step of the group, without the handlers ----

  /** What a step at one member means for the rest of the proof. */
  ghost predicate Next(s: Group, id: nat, s': Group) {
    && id in s.nodes && s'.nodes.Keys == s.nodes.Keys
    && (forall j :: j in s.nodes && j != id ==> s'.nodes[j] == s.nodes[j])
    && s.net <= s'.net && s.elected <= s'.elected && Grows(s.termLog, s'.termLog)
    && (forall p :: p in s.net ==> PacketOk(s, p)) && (forall p :: p in s'.net ==> PacketOk(s', p))
    && (forall p :: p in s'.net && p !in s.net ==> p.src == id && NewOk(s, id, s', p))
    && OneLeaderPerTerm(s')
    && LedBy(s, id, s') && NodeNext(s, id, s')
  }

  /** Only the acting member can become leader, and only its term's log can change. */
  ghost predicate LedBy(s: Group, id: nat, s': Group)
    requires id in s'.nodes
  {
    var n' := s'.nodes[id];
    && (forall e :: e in s'.elected ==> e in s.elected || (e == (n'.currentTerm, id) && n'.role.Leader?))
    && (forall e :: e in s'.elected ==> ElectedOk(s', e))
    && (n'.role.Leader? ==> (n'.currentTerm, id) in s'.elected && n'.currentTerm in s'.termLog
                            && s'.termLog[n'.currentTerm] == Commands(n'.log))
    && (forall t :: t in s'.termLog && !(n'.role.Leader? && t == n'.currentTerm) ==>
          t in s.termLog && s'.termLog[t] == s.termLog[t])
  }

  ghost predicate NodeNext(s: Group, id: nat, s': Group)
    requires id in s.nodes && id in s'.nodes
  {
    var n, n' := s.nodes[id], s'.nodes[id];
    && NodeInv(n) && NodeInv(n') && n'.peers == n.peers != [] && n'.currentTerm >= n.currentTerm
    && (n'.role.Candidate? && n'.currentTerm == n.currentTerm ==> n.role.Candidate? && n'.log == n.log)
    && (n'.role.Leader? ==> n'.currentTerm == n.currentTerm && (n.role.Leader? || n.role.Candidate?))
    && (n'.role.Leader? && !n.role.Leader? ==> n'.log == n.log)
    && (n.role.Leader? ==> (n.currentTerm, id) in s.elected)
    && (n'.log != n.log ==> LastTerm(n') == n'.currentTerm && |n'.log| > 1 && (n'.role.Leader? || Took(s, id, n')))
    && (n'.role.Leader? && n'.log != n.log && !Took(s, id, n') ==> |n'.log| == |n.log| + 1)
  }

  /** The member has accepted entries that reach no further than its log now does. */
  ghost predicate Took(s: Group, id: nat, n': Node) {
    exists p :: p in s.net && p.dst == id && p.msg.AppendEntries? && p.msg.term == n'.currentTerm
                && p.msg.cmds != [] && |n'.log| > p.msg.prevIdx + |p.msg.cmds|
  }

  ghost predicate NewOk(s: Group, id: nat, s': Group, p: Packet)
    requires id in s.nodes && id in s'.nodes
  {
    var n, n' := s.nodes[id], s'.nodes[id];
    match p.msg
    case RequestVote(t, li, lt) =>
      && t == n'.currentTerm == n.currentTerm + 1 && p.dst in n'.peers && |n'.log| > 0
      && li == LastIndex(n') && lt == LastTerm(n') < t
    case VoteReply(t, granted) => granted ==> Answered(s, id, s', p.dst, t)
    case AppendReply(t, success, m) => success ==> Accepted(s, id, s', p.dst, t, m)
    case AppendEntries(t, _, _, _, _) =>
      && n'.role.Leader? && t == n'.currentTerm
      && exists next :: 1 <= next <= U64 && p.msg == AppendMsg(n', next)
  }

  ghost predicate Requested(s: Group, l: nat, dst: nat, t: nat, li: nat, lt: nat) {
    Packet(l, dst, RequestVote(t, li, lt)) in s.net
  }

  /** A vote answers a request that was up to date. */
  ghost predicate Answered(s: Group, id: nat, s': Group, from: nat, t: nat)
    requires id in s.nodes && id in s'.nodes
  {
    var n, n' := s.nodes[id], s'.nodes[id];
    && n'.log == n.log && n'.currentTerm == t && |n'.log| > 0
    && exists li, lt :: Requested(s, from, id, t, li, lt) && UpToDate(n', li, lt)
  }

  /** A success reply answers entries that were accepted. */
  ghost predicate Accepted(s: Group, id: nat, s': Group, from: nat, t: nat, m: nat)
    requires id in s.nodes && id in s'.nodes
  {
    exists p :: p in s.net && p.src == from && p.dst == id && AcceptedMsg(s.nodes[id], s'.nodes[id], p.msg, t, m)
  }

  ghost predicate AcceptedMsg(n: Node, n': Node, msg: Msg, t: nat, m: nat) {
    && msg.AppendEntries? && msg.term == t == n'.currentTerm && t >= n.currentTerm
    && m + 1 == |n'.log| && Consistent(n.log, msg.prevIdx, msg.prevTerm)
    && msg.prevIdx < |n.log| && n'.log == Merge(n.log, msg.prevIdx + 1, t, msg.cmds)
  }

  lemma StepIsNext(s: Group, a: Action)
    requires LogInv(s) && Enabled(s, a) && Guarded(s, a) && OneLeaderPerTerm(Perform(s, a))
    ensures Next(s, a.id, Perform(s, a)) && LogInv(Perform(s, a))
  {
    var s' := Perform(s, a);
    LogStep(s, a);
    NodeStepNext(s, a);
    LedByStep(s, a);
    forall p | p in s'.net && p !in s.net
      ensures p.src == a.id && NewOk(s, a.id, s', p)
    {
      assert s'.nodes[a.id].role.Leader? ==> LeaderOk(s', a.id);
      NewPacketOk(s, a, p);
    }
  }

  lemma LedByStep(s: Group, a: Action)
    requires BaseInv(s) && Enabled(s, a) && BaseInv(Perform(s, a))
    ensures LedBy(s, a.id, Perform(s, a))
  {
  }

  lemma NodeStepNext(s: Group, a: Action)
    requires BaseInv(s) && Enabled(s, a)
    ensures NodeNext(s, a.id, Perform(s, a))
  {
    var n, n' := s.nodes[a.id], Perform(s, a).nodes[a.id];
    assert MemberOk(s, a.id);
    if a.input.Receive? {
      assert PacketOk(s, Packet(a.input.from, a.id, a.input.msg));
    }
    StepKeepsInvariant(n, a.input);
    RoleSteps(n, a.input);
    if n'.role.Candidate? && n'.currentTerm == n.currentTerm {
      CandidateStays(n, a.input);
    }
    if n'.role.Leader? && !n.role.Leader? {
      LogUnchanged(n, a.input);
    }
    if n'.log != n.log {
      LogTakes(s, a);
    }
  }

  lemma LogTakes(s: Group, a: Action)
    requires BaseInv(s) && Enabled(s, a)
    requires Perform(s, a).nodes[a.id].log != s.nodes[a.id].log
    ensures var n, n' := s.nodes[a.id], Perform(s, a).nodes[a.id];
            && |n'.log| > 1 && LastTerm(n') == n'.currentTerm
            && (Took(s, a.id, n') || (n'.role.Leader? && |n'.log| == |n.log| + 1))
  {
    var n, n' := s.nodes[a.id], Perform(s, a).nodes[a.id];
    assert MemberOk(s, a.id);
    if a.input.Receive? && a.input.msg.AppendEntries? {
      AcceptedLog(n, a.input.from, a.input.msg);
      var p := Packet(a.input.from, a.id, a.input.msg);
      assert p in s.net && p.dst == a.id && p.msg.AppendEntries?;
    } else {
      assert a.input.Propose? && n.role.Leader? by {
        if !(a.input.Propose? && n.role.Leader?) {
          LogUnchanged(n, a.input);
        }
      }
    }
  }

  lemma NewPacketOk(s: Group, a: Action, p: Packet)
    requires BaseInv(s) && Enabled(s, a) && Guarded(s, a) && p in Perform(s, a).net && p !in s.net
    requires Perform(s, a).nodes[a.id].role.Leader? ==> NextBounded(Perform(s, a).nodes[a.id])
    requires NodeInv(Perform(s, a).nodes[a.id])
    ensures p.src == a.id && NewOk(s, a.id, Perform(s, a), p)
  {
    var n, e := s.nodes[a.id], NodeStep(s.nodes[a.id], a.input).value;
    var k :| 0 <= k < |e.sent| && p == Packet(a.id, e.sent[k].dst, e.sent[k].msg);
    assert MemberOk(s, a.id);
    SentMessages(n, a.input, k);
    match p.msg
    case RequestVote(_, _, _) => SentRequest(n, a.input, k);
    case VoteReply(_, granted) => if granted { NewVoteOk(s, a, p, k); }
    case AppendReply(_, success, _) => if success { NewSuccessOk(s, a, p, k); }
    case AppendEntries(_, _, _, _, _) =>
      var i :| 0 <= i < |e.node.nextIndex| && p.msg == AppendMsg(e.node, e.node.nextIndex[i]);
      assert 1 <= e.node.nextIndex[i] <= U64;
  }

  lemma NewVoteOk(s: Group, a: Action, p: Packet, k: nat)
    requires BaseInv(s) && Enabled(s, a) && p.msg.VoteReply? && p.msg.granted
    requires var e := NodeStep(s.nodes[a.id], a.input).value;
             k < |e.sent| && e.sent[k] == Envelope(p.dst, p.msg) && p.msg.term == e.node.currentTerm
             && SentOk(s.nodes[a.id], a.input, e.node, e.sent[k])
    ensures Answered(s, a.id, Perform(s, a), p.dst, p.msg.term)
  {
    assert MemberOk(s, a.id);
    SentGrant(s.nodes[a.id], a.input, k);
    assert Requested(s, p.dst, a.id, p.msg.term, a.input.msg.lastIdx, a.input.msg.lastTerm);
  }

  lemma NewSuccessOk(s: Group, a: Action, p: Packet, k: nat)
    requires BaseInv(s) && Enabled(s, a) && p.msg.AppendReply? && p.msg.success
    requires var e := NodeStep(s.nodes[a.id], a.input).value; k < |e.sent| && e.sent[k] == Envelope(p.dst, p.msg)
    ensures Accepted(s, a.id, Perform(s, a), p.dst, p.msg.term, p.msg.matchIdx)
  {
    var n, e := s.nodes[a.id], NodeStep(s.nodes[a.id], a.input).value;
    assert MemberOk(s, a.id);
    SentReply(n, a.input, k);
    var q := Packet(a.input.from, a.id, a.input.msg);
    assert q in s.net && q.src == p.dst && q.dst == a.id;
    assert AcceptedMsg(n, e.node, q.msg, p.msg.term, p.msg.matchIdx);
  }

  // ---- leaders ----

  /** Some term after t, up to u, has had a leader. */
  ghost predicate LedAfter(s: Group, t: nat, u: nat) {
    exists x :: t < x <= u && x in s.termLog
  }

  /** Every leader's term is on record, with its log as long as nobody has led since. */
  ghost predicate LeadInv(s: Group) {
    forall t, l {:trigger LeadOk(s, t, l)} :: (t, l) in s.elected ==> LeadOk(s, t, l)
  }

  ghost predicate LeadOk(s: Group, t: nat, l: nat) {
    && l in s.nodes && t in s.termLog && t <= s.nodes[l].currentTerm
    && (!LedAfter(s, t, s.nodes[l].currentTerm) ==> Commands(s.nodes[l].log) == s.termLog[t])
  }

  /** Entries in the network come from the one leader of their term. */
  ghost predicate EntriesFromLeaders(s: Group) {
    forall p :: p in s.net && p.msg.AppendEntries? ==> (p.msg.term, p.src) in s.elected && p.src != p.dst
  }

  lemma LogInvEntries(s: Group)
    requires LogInv(s)
    ensures EntriesFromLeaders(s)
  {
    forall p | p in s.net && p.msg.AppendEntries?
      ensures (p.msg.term, p.src) in s.elected && p.src != p.dst
    {
      assert PacketOk(s, p);
    }
  }

  lemma LedAfterStays(s: Group, id: nat, s': Group, t: nat, u: nat, u': nat)
    requires Next(s, id, s') && u <= u' && LedAfter(s, t, u)
    ensures LedAfter(s', t, u')
  {
    var x :| t < x <= u && x in s.termLog;
    assert x in s'.termLog;
  }

  /** A log changes only in a term that has a leader. */
  lemma ChangedInLedTerm(s: Group, id: nat, s': Group)
    requires Next(s, id, s') && LeadInv(s) && EntriesFromLeaders(s) && s'.nodes[id].log != s.nodes[id].log
    ensures s'.nodes[id].currentTerm in s'.termLog
  {
    if !s'.nodes[id].role.Leader? {
      var p :| p in s.net && p.dst == id && p.msg.AppendEntries? && p.msg.term == s'.nodes[id].currentTerm;
      assert LeadOk(s, p.msg.term, p.src);
    }
  }

  /** A member that has followed nobody since term t keeps its log, or takes entries of that term. */
  lemma KeepsOrTakes(s: Group, id: nat, s': Group, v: nat, t: nat)
    requires Next(s, id, s') && LeadInv(s) && EntriesFromLeaders(s) && v in s.nodes && t <= s.nodes[v].currentTerm
    requires !LedAfter(s', t, s'.nodes[v].currentTerm)
    ensures !LedAfter(s, t, s.nodes[v].currentTerm)
    ensures s'.nodes[v].log == s.nodes[v].log || (v == id && s'.nodes[v].currentTerm == t && LastTerm(s'.nodes[v]) == t)
  {
    if LedAfter(s, t, s.nodes[v].currentTerm) {
      LedAfterStays(s, id, s', t, s.nodes[v].currentTerm, s'.nodes[v].currentTerm);
    }
    if s'.nodes[v].log != s.nodes[v].log {
      ChangedInLedTerm(s, id, s');
    }
  }

  lemma LeadStep(s: Group, id: nat, s': Group)
    requires Next(s, id, s') && LeadInv(s) && EntriesFromLeaders(s)
    ensures LeadInv(s')
  {
    forall t, l | (t, l) in s'.elected
      ensures LeadOk(s', t, l)
    {
      LeadStepOne(s, id, s', t, l);
    }
  }

  lemma LeadStepOne(s: Group, id: nat, s': Group, t: nat, l: nat)
    requires Next(s, id, s') && LeadInv(s) && EntriesFromLeaders(s) && (t, l) in s'.elected
    ensures LeadOk(s', t, l)
  {
    assert ElectedOk(s', (t, l));
    var n' := s'.nodes[id];
    if (t, l) in s.elected {
      assert LeadOk(s, t, l);
      if !LedAfter(s', t, s'.nodes[l].currentTerm) && !(n'.role.Leader? && n'.currentTerm == t && l == id) {
        assert n'.role.Leader? && n'.currentTerm == t ==> l == id;
        StillLogged(s, id, s', t, l);
      }
    }
  }

  lemma StillLogged(s: Group, id: nat, s': Group, t: nat, l: nat)
    requires Next(s, id, s') && LeadInv(s) && EntriesFromLeaders(s) && (t, l) in s.elected && l in s.nodes
    requires !LedAfter(s', t, s'.nodes[l].currentTerm) && !(l == id && s'.nodes[l].role.Leader?)
    requires t <= s.nodes[l].currentTerm
    ensures s'.nodes[l].log == s.nodes[l].log
  {
    KeepsOrTakes(s, id, s', l, t);
    assert ElectedOk(s', (t, l));
  }

  // ---- vote requests ----

  /** A member whose log is still what its vote request for term t said: a candidate of that term, or the leader of it
      that has proposed nothing in it and has followed nobody since. */
  ghost predicate AsRequested(s: Group, l: nat, t: nat)
    requires l in s.nodes
  {
    var n := s.nodes[l];
    || (n.currentTerm == t && n.role.Candidate?)
    || ((t, l) in s.elected && !LedAfter(s, t, n.currentTerm) && LastTerm(n) < t)
  }

  ghost predicate RequestOk(s: Group, l: nat, dst: nat, t: nat, li: nat, lt: nat) {
    && l in s.nodes && |s.nodes[l].log| > 0 && dst in s.nodes[l].peers && lt < t <= s.nodes[l].currentTerm
    && (AsRequested(s, l, t) ==> li == LastIndex(s.nodes[l]) && lt == LastTerm(s.nodes[l]))
  }

  ghost predicate RequestInv(s: Group) {
    forall l, dst, t, li, lt {:trigger RequestOk(s, l, dst, t, li, lt)} ::
      Requested(s, l, dst, t, li, lt) ==> RequestOk(s, l, dst, t, li, lt)
  }

  /** All requests of one candidacy are the same. */
  ghost predicate OneRequest(s: Group) {
    forall l, c, d, t, i, j, x, y :: Requested(s, l, c, t, i, x) && Requested(s, l, d, t, j, y) ==> i == j && x == y
  }

  /** Once a member has reached a term, it sends no more requests of that term. */
  lemma SameRequests(s: Group, id: nat, s': Group, l: nat, dst: nat, t: nat, li: nat, lt: nat)
    requires Next(s, id, s') && Requested(s', l, dst, t, li, lt) && l in s.nodes && t <= s.nodes[l].currentTerm
    ensures Requested(s, l, dst, t, li, lt)
  {
    var p := Packet(l, dst, RequestVote(t, li, lt));
    assert p !in s.net ==> NewOk(s, id, s', p);
  }

  /** Whoever is as its request said has been so before, with the same log. */
  lemma AsRequestedBefore(s: Group, id: nat, s': Group, l: nat, t: nat)
    requires Next(s, id, s') && LeadInv(s) && EntriesFromLeaders(s)
    requires l in s.nodes && t <= s.nodes[l].currentTerm && AsRequested(s', l, t)
    ensures AsRequested(s, l, t) && s'.nodes[l].log == s.nodes[l].log
  {
    if !(s'.nodes[l].currentTerm == t && s'.nodes[l].role.Candidate?) {
      KeepsOrTakes(s, id, s', l, t);
    }
  }

  lemma RequestStep(s: Group, id: nat, s': Group)
    requires Next(s, id, s') && LeadInv(s) && EntriesFromLeaders(s) && RequestInv(s)
    ensures RequestInv(s')
  {
    forall l, dst, t, li, lt | Requested(s', l, dst, t, li, lt)
      ensures RequestOk(s', l, dst, t, li, lt)
    {
      if Requested(s, l, dst, t, li, lt) {
        assert RequestOk(s, l, dst, t, li, lt);
        if AsRequested(s', l, t) {
          AsRequestedBefore(s, id, s', l, t);
        }
      } else {
        assert NewOk(s, id, s', Packet(l, dst, RequestVote(t, li, lt)));
      }
    }
  }

  lemma OneRequestStep(s: Group, id: nat, s': Group)
    requires Next(s, id, s') && RequestInv(s) && OneRequest(s)
    ensures OneRequest(s')
  {
    forall l, c, d, t, i, j, x, y | Requested(s', l, c, t, i, x) && Requested(s', l, d, t, j, y)
      ensures i == j && x == y
    {
      if Requested(s, l, c, t, i, x) {
        assert RequestOk(s, l, c, t, i, x);
        SameRequests(s, id, s', l, d, t, j, y);
      } else {
        assert NewOk(s, id, s', Packet(l, c, RequestVote(t, i, x)));
        if !Requested(s, l, d, t, j, y) {
          assert NewOk(s, id, s', Packet(l, d, RequestVote(t, j, y)));
        }
      }
    }
  }

  // ---- granted votes ----

  /** The log is no better than that of any request of l for term t. */
  ghost predicate Willing(s: Group, n: Node, l: nat, t: nat)
    requires |n.log| > 0
  {
    forall dst, li, lt :: Requested(s, l, dst, t, li, lt) ==> UpToDate(n, li, lt)
  }

  /** A voter was asked, and its log is no better than the candidate's was until it takes entries of the term. */
  ghost predicate GrantOk(s: Group, t: nat, v: nat, l: nat) {
    && v in s.nodes && |s.nodes[v].log| > 0 && t <= s.nodes[v].currentTerm
    && (exists li, lt :: Requested(s, l, v, t, li, lt))
    && (!LedAfter(s, t, s.nodes[v].currentTerm) ==> LastTerm(s.nodes[v]) == t || Willing(s, s.nodes[v], l, t))
  }

  ghost predicate GrantInv(s: Group) {
    forall t, v, l {:trigger GrantOk(s, t, v, l)} :: Granted(s, t, v, l) ==> GrantOk(s, t, v, l)
  }

  lemma StaysWilling(s: Group, id: nat, s': Group, n: Node, n': Node, l: nat, t: nat)
    requires Next(s, id, s') && l in s.nodes && t <= s.nodes[l].currentTerm
    requires |n.log| > 0 && n'.log == n.log && Willing(s, n, l, t)
    ensures Willing(s', n', l, t)
  {
    forall dst, i, x | Requested(s', l, dst, t, i, x)
      ensures UpToDate(n', i, x)
    {
      SameRequests(s, id, s', l, dst, t, i, x);
      assert UpToDate(n, i, x);
    }
  }

  lemma GrantStep(s: Group, id: nat, s': Group)
    requires Next(s, id, s') && LeadInv(s) && EntriesFromLeaders(s) && RequestInv(s) && OneRequest(s) && GrantInv(s)
    ensures GrantInv(s')
  {
    forall t, v, l | Granted(s', t, v, l)
      ensures GrantOk(s', t, v, l)
    {
      if Granted(s, t, v, l) {
        OldGrantOk(s, id, s', t, v, l);
      } else {
        NewGrantOk(s, id, s', t, v, l);
      }
    }
  }

  lemma OldGrantOk(s: Group, id: nat, s': Group, t: nat, v: nat, l: nat)
    requires Next(s, id, s') && LeadInv(s) && EntriesFromLeaders(s) && RequestInv(s)
    requires GrantOk(s, t, v, l)
    ensures GrantOk(s', t, v, l)
  {
    var li, lt :| Requested(s, l, v, t, li, lt);
    assert RequestOk(s, l, v, t, li, lt);
    assert Requested(s', l, v, t, li, lt);
    if !LedAfter(s', t, s'.nodes[v].currentTerm) {
      KeepsOrTakes(s, id, s', v, t);
      if s'.nodes[v].log == s.nodes[v].log && LastTerm(s.nodes[v]) != t {
        StaysWilling(s, id, s', s.nodes[v], s'.nodes[v], l, t);
      }
    }
  }

  lemma NewGrantOk(s: Group, id: nat, s': Group, t: nat, v: nat, l: nat)
    requires Next(s, id, s') && RequestInv(s) && OneRequest(s) && Granted(s', t, v, l) && !Granted(s, t, v, l)
    ensures GrantOk(s', t, v, l)
  {
    assert NewOk(s, id, s', Packet(v, l, VoteReply(t, true)));
    var n' := s'.nodes[v];
    var li, lt :| Requested(s, l, v, t, li, lt) && UpToDate(n', li, lt);
    assert Requested(s, l, v, t, li, lt) && Requested(s', l, v, t, li, lt);
    assert RequestOk(s, l, v, t, li, lt);
    forall dst, i, x | Requested(s', l, dst, t, i, x)
      ensures UpToDate(n', i, x)
    {
      SameRequests(s, id, s', l, dst, t, i, x);
    }
  }

  // ---- how far logs and messages of a term reach ----

  /** Every label in use belongs to a term with a leader. */
  ghost predicate LabelsLed(s: Group) {
    forall v {:trigger LabelLed(s, v)} :: v in s.nodes ==> LabelLed(s, v)
  }

  ghost predicate LabelLed(s: Group, v: nat)
    requires v in s.nodes
  {
    LastTerm(s.nodes[v]) > 0 ==> exists l :: (LastTerm(s.nodes[v]), l) in s.elected
  }

  lemma LogInvLabels(s: Group)
    requires LogInv(s)
    ensures LabelsLed(s)
  {
    forall v | v in s.nodes
      ensures LabelLed(s, v)
    {
      LastLabelLed(s, v);
    }
  }

  lemma LastLabelLed(s: Group, v: nat)
    requires LogInv(s) && v in s.nodes
    ensures LabelLed(s, v)
  {
    var log := s.nodes[v].log;
    if LastTerm(s.nodes[v]) > 0 {
      assert LogTraced(s.termLog, log);
      assert Traced(s.termLog, log, |log| - 1);
      assert Led(s, LastTerm(s.nodes[v]));
    }
  }

  /** No request of l for term t describes a log that goes beyond index b. */
  ghost predicate UpTo(s: Group, l: nat, t: nat, b: int) {
    forall dst, li: nat, lt :: Requested(s, l, dst, t, li, lt) ==> li <= b
  }

  /** Every request of l for term t describes a log with this end. */
  ghost predicate AllSay(s: Group, l: nat, t: nat, i: nat, x: nat) {
    forall dst, li, lt :: Requested(s, l, dst, t, li, lt) ==> li == i && lt == x
  }

  /** Both stay once l has reached the term. */
  lemma RequestsStay(s: Group, id: nat, s': Group, l: nat, t: nat, b: int, i: nat, x: nat)
    requires Next(s, id, s') && l in s.nodes && t <= s.nodes[l].currentTerm
    ensures UpTo(s, l, t, b) ==> UpTo(s', l, t, b)
    ensures AllSay(s, l, t, i, x) ==> AllSay(s', l, t, i, x)
  {
    forall dst, li, lt | Requested(s', l, dst, t, li, lt)
      ensures Requested(s, l, dst, t, li, lt)
    {
      SameRequests(s, id, s', l, dst, t, li, lt);
    }
  }

  /** A log that ends with an entry of some term is as long as the log of that term's leader was when it was elected. */
  ghost predicate EndOk(s: Group, n: Node) {
    forall l :: LastTerm(n) > 0 && (LastTerm(n), l) in s.elected ==> UpTo(s, l, LastTerm(n), |n.log| - 1)
  }

  ghost predicate EndInv(s: Group) {
    forall v {:trigger EndOk(s, s.nodes[v])} :: v in s.nodes ==> EndOk(s, s.nodes[v])
  }

  /** Entries reach as far as the leader's log did when it was elected; a message without entries is one that nobody
      accepts, or follows an entry of its own term, or describes that very log. */
  ghost predicate EntriesOk(s: Group, src: nat, m: Msg)
    requires m.AppendEntries?
  {
    && (m.prevIdx == 0 ==> m.prevTerm == 0)
    && (m.cmds != [] ==> UpTo(s, src, m.term, m.prevIdx + |m.cmds|))
    && (m.cmds == [] ==>
          || (m.prevIdx > 0 && (m.prevTerm == 0 || m.prevTerm == m.term))
          || AllSay(s, src, m.term, m.prevIdx, m.prevTerm))
  }

  ghost predicate EntriesInv(s: Group) {
    forall p {:trigger EntriesOk(s, p.src, p.msg)} :: p in s.net && p.msg.AppendEntries? ==> EntriesOk(s, p.src, p.msg)
  }

  /** A new leader's term has not been led before, so its label is on no log. */
  lemma OldLeader(s: Group, id: nat, s': Group, v: nat, l: nat)
    requires Next(s, id, s') && LabelsLed(s) && v in s.nodes
    requires LastTerm(s.nodes[v]) > 0 && (LastTerm(s.nodes[v]), l) in s'.elected
    ensures (LastTerm(s.nodes[v]), l) in s.elected
  {
    assert LabelLed(s, v);
    var x :| (LastTerm(s.nodes[v]), x) in s.elected;
    assert (LastTerm(s.nodes[v]), x) in s'.elected;
  }

  lemma EndKept(s: Group, id: nat, s': Group, v: nat)
    requires Next(s, id, s') && LeadInv(s) && LabelsLed(s) && v in s.nodes && EndOk(s, s.nodes[v])
    requires s'.nodes[v].log == s.nodes[v].log
    ensures EndOk(s', s'.nodes[v])
  {
    var n, n' := s.nodes[v], s'.nodes[v];
    assert LastTerm(n') == LastTerm(n);
    forall l | LastTerm(n) > 0 && (LastTerm(n), l) in s'.elected
      ensures UpTo(s', l, LastTerm(n), |n.log| - 1)
    {
      OldLeader(s, id, s', v, l);
      assert LeadOk(s, LastTerm(n), l);
      RequestsStay(s, id, s', l, LastTerm(n), |n.log| - 1, 0, 0);
    }
  }

  lemma EndChanged(s: Group, id: nat, s': Group)
    requires Next(s, id, s') && LeadInv(s) && EntriesFromLeaders(s) && RequestInv(s) && EndInv(s) && EntriesInv(s)
    requires s'.nodes[id].log != s.nodes[id].log
    ensures EndOk(s', s'.nodes[id])
  {
    var n' := s'.nodes[id];
    var t := n'.currentTerm;
    forall l | LastTerm(n') > 0 && (t, l) in s'.elected
      ensures UpTo(s', l, t, |n'.log| - 1)
    {
      if Took(s, id, n') {
        var p :| p in s.net && p.dst == id && p.msg.AppendEntries? && p.msg.term == t
                 && p.msg.cmds != [] && |n'.log| > p.msg.prevIdx + |p.msg.cmds|;
        assert LeadOk(s, t, p.src) && (t, p.src) in s'.elected;
        assert EntriesOk(s, p.src, p.msg);
        RequestsStay(s, id, s', l, t, p.msg.prevIdx + |p.msg.cmds|, 0, 0);
      } else {
        ProposedEnd(s, id, s');
      }
    }
  }

  lemma ProposedEnd(s: Group, id: nat, s': Group)
    requires Next(s, id, s') && RequestInv(s) && EndOk(s, s.nodes[id])
    requires s'.nodes[id].role.Leader? && |s'.nodes[id].log| == |s.nodes[id].log| + 1
    ensures UpTo(s', id, s'.nodes[id].currentTerm, |s'.nodes[id].log| - 1)
  {
    var n, t := s.nodes[id], s'.nodes[id].currentTerm;
    LeaderReach(s, id);
    RequestsStay(s, id, s', id, t, |n.log| - 1, 0, 0);
  }

  /** The requests of a candidate or leader of its term describe its log, or a shorter one. */
  lemma LeaderReach(s: Group, l: nat)
    requires RequestInv(s) && l in s.nodes && NodeInv(s.nodes[l]) && EndOk(s, s.nodes[l]) && s.nodes[l].currentTerm > 0
    requires s.nodes[l].role.Candidate? || (s.nodes[l].role.Leader? && (s.nodes[l].currentTerm, l) in s.elected)
    ensures var n := s.nodes[l];
            && UpTo(s, l, n.currentTerm, |n.log| - 1)
            && (LastTerm(n) < n.currentTerm ==> AllSay(s, l, n.currentTerm, LastIndex(n), LastTerm(n)))
  {
    var n := s.nodes[l];
    var t := n.currentTerm;
    assert LastTerm(n) <= t by { assert |n.log| > 1 ==> n.log[|n.log| - 1].term <= t; }
    if LastTerm(n) < t || n.role.Candidate? {
      assert AsRequested(s, l, t);
      forall dst, li, lt | Requested(s, l, dst, t, li, lt)
        ensures li == LastIndex(n) && lt == LastTerm(n)
      {
        assert RequestOk(s, l, dst, t, li, lt);
      }
    }
  }

  lemma EndStep(s: Group, id: nat, s': Group)
    requires Next(s, id, s') && LeadInv(s) && EntriesFromLeaders(s) && LabelsLed(s)
    requires RequestInv(s) && EndInv(s) && EntriesInv(s)
    ensures EndInv(s')
  {
    forall v | v in s'.nodes
      ensures EndOk(s', s'.nodes[v])
    {
      assert EndOk(s, s.nodes[v]);
      if s'.nodes[v].log == s.nodes[v].log {
        EndKept(s, id, s', v);
      } else {
        EndChanged(s, id, s');
      }
    }
  }

  lemma OldEntriesOk(s: Group, id: nat, s': Group, p: Packet)
    requires Next(s, id, s') && p in s.net && p.msg.AppendEntries? && EntriesOk(s, p.src, p.msg)
    ensures EntriesOk(s', p.src, p.msg)
  {
    assert PacketOk(s, p);
    RequestsStay(s, id, s', p.src, p.msg.term, p.msg.prevIdx + |p.msg.cmds|, p.msg.prevIdx, p.msg.prevTerm);
  }

  /** What a leader sends. */
  lemma LeaderEntriesOk(s: Group, l: nat, next: nat)
    requires RequestInv(s) && l in s.nodes && NodeInv(s.nodes[l]) && EndOk(s, s.nodes[l]) && 1 <= next <= U64
    requires s.nodes[l].role.Leader? && s.nodes[l].currentTerm > 0 && (s.nodes[l].currentTerm, l) in s.elected
    ensures EntriesOk(s, l, AppendMsg(s.nodes[l], next))
  {
    LeaderReach(s, l);
    var n, m := s.nodes[l], AppendMsg(s.nodes[l], next);
    assert m.prevIdx == next - 1;
    assert LastTerm(n) <= n.currentTerm by { assert |n.log| > 1 ==> n.log[|n.log| - 1].term <= n.currentTerm; }
  }

  lemma NewEntriesOk(s: Group, id: nat, s': Group, p: Packet)
    requires Next(s, id, s') && RequestInv(s') && EndInv(s') && p in s'.net && p !in s.net && p.msg.AppendEntries?
    ensures EntriesOk(s', p.src, p.msg)
  {
    assert NewOk(s, id, s', p);
    var next :| 1 <= next <= U64 && p.msg == AppendMsg(s'.nodes[id], next);
    assert PacketOk(s', p) && EndOk(s', s'.nodes[id]);
    LeaderEntriesOk(s', id, next);
  }

  lemma EntriesStep(s: Group, id: nat, s': Group)
    requires Next(s, id, s') && EntriesInv(s) && RequestInv(s') && EndInv(s')
    ensures EntriesInv(s')
  {
    forall p | p in s'.net && p.msg.AppendEntries?
      ensures EntriesOk(s', p.src, p.msg)
    {
      if p in s.net {
        OldEntriesOk(s, id, s', p);
      } else {
        NewEntriesOk(s, id, s', p);
      }
    }
  }

  // ---- success replies ----

  /** The member will not vote for l in term t: it has taken entries of the term, or its log is better than that of
      every request. */
  ghost predicate Unwilling(s: Group, n: Node, l: nat, t: nat)
    requires |n.log| > 0
  {
    LastTerm(n) == t || forall dst, li, lt :: Requested(s, l, dst, t, li, lt) ==> !UpToDate(n, li, lt)
  }

  ghost predicate Refuser(s: Group, t: nat, v: nat, l: nat) {
    && v in s.nodes && |s.nodes[v].log| > 0 && !Granted(s, t, v, l)
    && (s.nodes[v].currentTerm == t ==> Unwilling(s, s.nodes[v], l, t))
  }

  ghost predicate Replied(s: Group, v: nat, l: nat, t: nat, m: nat) {
    Packet(v, l, AppendReply(t, true, m)) in s.net
  }

  /** A reply reports an index that the leader's log has reached, or comes from a member that never votes for it in that
      term. */
  ghost predicate ReplyOk(s: Group, v: nat, l: nat, t: nat, m: nat) {
    && v in s.nodes && t <= s.nodes[v].currentTerm && (t, l) in s.elected && t in s.termLog
    && (m < |s.termLog[t]| || Refuser(s, t, v, l))
  }

  ghost predicate ReplyInv(s: Group) {
    forall v, l, t, m: nat {:trigger ReplyOk(s, v, l, t, m)} :: Replied(s, v, l, t, m) ==> ReplyOk(s, v, l, t, m)
  }

  lemma StaysUnwilling(s: Group, id: nat, s': Group, v: nat, l: nat, t: nat)
    requires Next(s, id, s') && l in s.nodes && t <= s.nodes[l].currentTerm && v in s.nodes && |s.nodes[v].log| > 0
    requires s.nodes[v].currentTerm == s'.nodes[v].currentTerm == t && Unwilling(s, s.nodes[v], l, t)
    requires |s'.nodes[v].log| > 0
    ensures Unwilling(s', s'.nodes[v], l, t)
  {
    if s'.nodes[v].log == s.nodes[v].log && LastTerm(s.nodes[v]) != t {
      forall dst, i, x | Requested(s', l, dst, t, i, x)
        ensures !UpToDate(s'.nodes[v], i, x)
      {
        SameRequests(s, id, s', l, dst, t, i, x);
      }
    }
  }

  lemma StaysRefuser(s: Group, id: nat, s': Group, t: nat, v: nat, l: nat)
    requires Next(s, id, s') && LeadInv(s) && RequestInv(s) && Refuser(s, t, v, l) && (t, l) in s.elected
    requires t <= s.nodes[v].currentTerm
    ensures Refuser(s', t, v, l)
  {
    assert LeadOk(s, t, l);
    if s'.nodes[v].currentTerm == t {
      StaysUnwilling(s, id, s', v, l, t);
    }
    if s.nodes[v].currentTerm == t && s'.nodes[v].log == s.nodes[v].log {
      forall li, lt | Requested(s, l, v, t, li, lt)
        ensures !UpToDate(s'.nodes[v], li, lt)
      {
        assert RequestOk(s, l, v, t, li, lt);
        assert !UpToDate(s.nodes[v], li, lt);
      }
    }
    assert Granted(s', t, v, l) ==> NewOk(s, id, s', Packet(v, l, VoteReply(t, true)));
  }

  /** What accepting a message of term t leaves: a log that the leader's covers; or the old log, without an entry of the
      term and longer than the leader's was. */
  lemma AcceptedLength(termLog: map<nat, seq<string>>, log: seq<Entry>, m: Msg)
    requires m.AppendEntries? && AppendOk(termLog, m) && LogTraced(termLog, log) && SentinelFirst(termLog)
    requires |log| > 0 && log[0] == SENTINEL && TermsSorted(log) && TermsBounded(log, m.term)
    requires Consistent(log, m.prevIdx, m.prevTerm) && m.prevIdx < |log|
    ensures var r := Merge(log, m.prevIdx + 1, m.term, m.cmds);
            || |r| <= |termLog[m.term]|
            || (m.cmds == [] && r == log && log[|log| - 1].term < m.term && m.prevIdx + 1 < |log|)
  {
    ConsistentAgrees(termLog, log, m);
    var cut := MergeShape(log, m.prevIdx + 1, m.term, m.cmds);
    var last := |log| - 1;
    if last > m.prevIdx + |m.cmds| && log[last].term == m.term {
      assert Traced(termLog, log, last);
    }
  }

  /** A log whose every label is that of some leader's term, in ascending order. */
  ghost predicate GoodLog(termLog: map<nat, seq<string>>, log: seq<Entry>) {
    && |log| > 0 && log[0] == SENTINEL && TermsSorted(log) && LogTraced(termLog, log)
  }

  /** A log that contains the described entry and goes on after it is better than the described one. */
  lemma LongerIsBetter(termLog: map<nat, seq<string>>, n: Node, i: nat, x: nat)
    requires GoodLog(termLog, n.log) && i + 1 < |n.log| && if i == 0 then x == 0 else n.log[i].term == x
    ensures !UpToDate(n, i, x)
  {
    assert Traced(termLog, n.log, |n.log| - 1);
  }

  /** A message without entries that a log without entries of its term accepts describes the leader's log. */
  lemma MustSay(s: Group, n: Node, l: nat, m: Msg)
    requires GoodLog(s.termLog, n.log) && m.AppendEntries? && m.cmds == [] && EntriesOk(s, l, m)
    requires Consistent(n.log, m.prevIdx, m.prevTerm) && m.prevIdx < |n.log| && n.log[|n.log| - 1].term < m.term
    ensures AllSay(s, l, m.term, m.prevIdx, m.prevTerm)
    ensures if m.prevIdx == 0 then m.prevTerm == 0 else n.log[m.prevIdx].term == m.prevTerm
  {
    assert m.prevIdx > 0 ==> Traced(s.termLog, n.log, m.prevIdx);
  }

  lemma NewReplyOk(s: Group, id: nat, s': Group, l: nat, t: nat, m: nat)
    requires LogInv(s) && Next(s, id, s') && LeadInv(s) && EntriesFromLeaders(s) && RequestInv(s) && EntriesInv(s)
    requires GrantInv(s) && Replied(s', id, l, t, m) && !Replied(s, id, l, t, m)
    ensures ReplyOk(s', id, l, t, m)
  {
    assert NewOk(s, id, s', Packet(id, l, AppendReply(t, true, m)));
    var p :| p in s.net && p.src == l && p.dst == id && AcceptedMsg(s.nodes[id], s'.nodes[id], p.msg, t, m);
    assert LeadOk(s, t, l) && EntriesOk(s, l, p.msg) && AppendOk(s.termLog, p.msg) && MemberOk(s, id);
    AcceptedReply(s, id, s', l, p.msg, m);
  }

  lemma AcceptedReply(s: Group, id: nat, s': Group, l: nat, msg: Msg, m: nat)
    requires Next(s, id, s') && RequestInv(s) && GrantInv(s) && msg.AppendEntries? && l in s.nodes
    requires msg.term <= s.nodes[l].currentTerm && (msg.term, l) in s.elected && msg.term in s.termLog
    requires EntriesOk(s, l, msg) && AppendOk(s.termLog, msg) && SentinelFirst(s.termLog)
    requires GoodLog(s.termLog, s.nodes[id].log) && TermsBounded(s.nodes[id].log, msg.term)
    requires AcceptedMsg(s.nodes[id], s'.nodes[id], msg, msg.term, m)
    ensures ReplyOk(s', id, l, msg.term, m)
  {
    var n := s.nodes[id];
    AcceptedLength(s.termLog, n.log, msg);
    assert s.termLog[msg.term] <= s'.termLog[msg.term];
    if m >= |s'.termLog[msg.term]| {
      MustSay(s, n, l, msg);
      LongerIsBetter(s.termLog, n, msg.prevIdx, msg.prevTerm);
      LeftOver(s, id, s', l, msg.term, msg.prevIdx, msg.prevTerm);
    }
  }

  /** A follower that accepts a message without entries, and whose log goes on after the leader's, is no voter. */
  lemma LeftOver(s: Group, id: nat, s': Group, l: nat, t: nat, i: nat, x: nat)
    requires Next(s, id, s') && RequestInv(s) && GrantInv(s) && l in s.nodes && t <= s.nodes[l].currentTerm
    requires AllSay(s, l, t, i, x) && |s.nodes[id].log| > 0 && !UpToDate(s.nodes[id], i, x)
    requires t == s'.nodes[id].currentTerm && s'.nodes[id].log == s.nodes[id].log && LastTerm(s.nodes[id]) != t
    ensures Refuser(s', t, id, l)
  {
    RequestsStay(s, id, s', l, t, 0, i, x);
    if Granted(s', t, id, l) {
      StillNoVote(s, id, s', l, t, i, x);
    }
  }

  lemma StillNoVote(s: Group, id: nat, s': Group, l: nat, t: nat, i: nat, x: nat)
    requires Next(s, id, s') && GrantInv(s) && AllSay(s, l, t, i, x) && Granted(s', t, id, l)
    requires t == s'.nodes[id].currentTerm && s'.nodes[id].log == s.nodes[id].log && LastTerm(s.nodes[id]) != t
    ensures UpToDate(s.nodes[id], i, x)
  {
    if Granted(s, t, id, l) {
      assert GrantOk(s, t, id, l);
      var li, lt :| Requested(s, l, id, t, li, lt);
      assert UpToDate(s.nodes[id], li, lt);
    } else {
      assert NewOk(s, id, s', Packet(id, l, VoteReply(t, true)));
      var li, lt :| Requested(s, l, id, t, li, lt) && UpToDate(s'.nodes[id], li, lt);
      assert Requested(s, l, id, t, li, lt);
    }
  }

  lemma ReplyStep(s: Group, id: nat, s': Group)
    requires LogInv(s) && Next(s, id, s') && LeadInv(s) && EntriesFromLeaders(s) && RequestInv(s) && EntriesInv(s)
    requires GrantInv(s) && ReplyInv(s)
    ensures ReplyInv(s')
  {
    forall v, l, t, m: nat | Replied(s', v, l, t, m)
      ensures ReplyOk(s', v, l, t, m)
    {
      if Replied(s, v, l, t, m) {
        assert ReplyOk(s, v, l, t, m);
        assert s.termLog[t] <= s'.termLog[t];
        if m >= |s.termLog[t]| {
          StaysRefuser(s, id, s', t, v, l);
        }
      } else {
        assert NewOk(s, id, s', Packet(v, l, AppendReply(t, true, m)));
        NewReplyOk(s, id, s', l, t, m);
      }
    }
  }

  // ---- two members: leaders' logs only get longer ----

  ghost predicate Voted(s: Group) {
    forall t, l {:trigger HasVoter(s, t, l)} :: (t, l) in s.elected ==> HasVoter(s, t, l)
  }

  ghost predicate HasVoter(s: Group, t: nat, l: nat) {
    exists v :: VotedFor(s, t, v, l)
  }

  ghost predicate VotedFor(s: Group, t: nat, v: nat, l: nat) {
    Granted(s, t, v, l) && v in s.nodes && l in s.nodes && v != l
  }

  lemma VoteInvVoted(s: Group)
    requires VoteInv(s)
    ensures Voted(s)
  {
    forall t, l | (t, l) in s.elected
      ensures HasVoter(s, t, l)
    {
      var v :| Granted(s, t, v, l);
      assert PacketOk(s, Packet(v, l, VoteReply(t, true)));
      assert VotedFor(s, t, v, l);
    }
  }

  lemma OnlyTwo(s: set<nat>, a: nat, b: nat, c: nat)
    requires |s| <= 2 && a in s && b in s && c in s && b != a && c != a
    ensures b == c
  {
    if b != c {
      var three := {a} + {b} + {c};
      assert |{a} + {b}| == 2 && |three| == 3;
      Sequences.SubsetSize(three, s);
    }
  }

  /** In a group of two, nobody leads a term beyond that of a member who does not know it. */
  lemma NoLaterLeader(s: Group, id: nat, t: nat)
    requires |s.nodes| <= 2 && id in s.nodes && Voted(s) && GrantInv(s) && LeadInv(s)
    requires t > s.nodes[id].currentTerm
    ensures forall l :: (t, l) !in s.elected
  {
    forall l
      ensures (t, l) !in s.elected
    {
      if (t, l) in s.elected {
        assert LeadOk(s, t, l);
        assert HasVoter(s, t, l);
        var v :| VotedFor(s, t, v, l);
        assert GrantOk(s, t, v, l);
        OnlyTwo(s.nodes.Keys, l, v, id);
        assert false;
      }
    }
  }

  ghost predicate MonoInv(s: Group) {
    forall t, u :: t in s.termLog && u in s.termLog && t <= u ==> |s.termLog[t]| <= |s.termLog[u]|
  }

  lemma {:induction false} LastLed(s: Group, t: nat, u: nat) returns (x: nat)
    requires t in s.termLog && t <= u
    ensures t <= x <= u && x in s.termLog && !LedAfter(s, x, u)
    decreases u - t
  {
    if y :| t < y <= u && y in s.termLog {
      x := LastLed(s, y, u);
    } else {
      x := t;
    }
  }

  ghost predicate TermsLed(s: Group) {
    forall t {:trigger TermLed(s, t)} :: t in s.termLog ==> TermLed(s, t)
  }

  ghost predicate TermLed(s: Group, t: nat) {
    exists l :: (t, l) in s.elected
  }

  /** What is known of a group of two in which id is a candidate of a term that nobody has led. */
  ghost predicate Pair(s: Group, id: nat, y: nat) {
    && |s.nodes| <= 2 && id in s.nodes && y in s.nodes && y != id
    && Voted(s) && TermsLed(s) && LabelsLed(s) && LeadInv(s) && RequestInv(s) && GrantInv(s) && EndInv(s)
    && NodeInv(s.nodes[id]) && NodeInv(s.nodes[y])
    && s.nodes[id].role.Candidate? && s.nodes[id].currentTerm !in s.termLog
  }

  /** n is up to date for m, which has led term x and sent this request for it; n has voted for m in x, or taken entries
      of x. Then m's log is no longer than n's. */
  lemma NoLonger(n: Node, m: Node, x: nat, li: nat, lt: nat)
    requires |n.log| > 0 && |m.log| > 0 && UpToDate(m, LastIndex(n), LastTerm(n)) && LastTerm(n) <= x
    requires LastTerm(m) < x ==> li == LastIndex(m) && lt == LastTerm(m)
    requires if LastTerm(n) == x then li <= LastIndex(n) else UpToDate(n, li, lt)
    ensures |m.log| <= |n.log|
  {
  }

  /** The request behind a vote, by a member that led the term and has followed nobody since. */
  lemma RequestBehind(s: Group, x: nat, v: nat, l: nat) returns (li: nat, lt: nat)
    requires GrantOk(s, x, v, l) && RequestInv(s) && (x, l) in s.elected
    requires l in s.nodes && !LedAfter(s, x, s.nodes[l].currentTerm)
    ensures Requested(s, l, v, x, li, lt)
    ensures |s.nodes[l].log| > 0 && LastTerm(s.nodes[l]) < x ==>
              li == LastIndex(s.nodes[l]) && lt == LastTerm(s.nodes[l])
  {
    li, lt :| Requested(s, l, v, x, li, lt);
    assert RequestOk(s, l, v, x, li, lt);
  }

  lemma LastVoter(s: Group, id: nat, y: nat, x: nat)
    requires |s.nodes| <= 2 && id in s.nodes && y in s.nodes && y != id
    requires Voted(s) && GrantInv(s) && (x, y) in s.elected
    ensures GrantOk(s, x, id, y)
  {
    assert HasVoter(s, x, y);
    var v :| VotedFor(s, x, v, y);
    OnlyTwo(s.nodes.Keys, y, v, id);
    assert GrantOk(s, x, id, y);
  }

  /** The other one's log is no longer than the candidate's, if it voted for it and was the last to lead. */
  lemma VoterNoLonger(s: Group, id: nat, y: nat, x: nat)
    requires id in s.nodes && y in s.nodes && NodeInv(s.nodes[id]) && NodeInv(s.nodes[y]) && GrantOk(s, x, id, y)
    requires RequestInv(s) && EndOk(s, s.nodes[id]) && (x, y) in s.elected && LastTerm(s.nodes[id]) <= x && x > 0
    requires !LedAfter(s, x, s.nodes[id].currentTerm) && !LedAfter(s, x, s.nodes[y].currentTerm)
    requires UpToDate(s.nodes[y], LastIndex(s.nodes[id]), LastTerm(s.nodes[id]))
    ensures |s.nodes[y].log| <= |s.nodes[id].log|
  {
    var n := s.nodes[id];
    var li, lt := RequestBehind(s, x, id, y);
    if LastTerm(n) == x {
      assert UpTo(s, y, x, |n.log| - 1);
    } else {
      assert Willing(s, n, y, x);
    }
    NoLonger(n, s.nodes[y], x, li, lt);
  }

  lemma LabelAtMost(s: Group, id: nat, x: nat)
    requires id in s.nodes && NodeInv(s.nodes[id]) && LabelsLed(s) && LeadInv(s) && LastTerm(s.nodes[id]) > 0
    requires !LedAfter(s, x, s.nodes[id].currentTerm)
    ensures LastTerm(s.nodes[id]) <= x
  {
    var n := s.nodes[id];
    assert LabelLed(s, id);
    var l :| (LastTerm(n), l) in s.elected;
    assert LeadOk(s, LastTerm(n), l);
    assert n.log[|n.log| - 1].term <= n.currentTerm;
  }

  lemma TermLeader(s: Group, t: nat) returns (l: nat)
    requires TermsLed(s) && t in s.termLog
    ensures (t, l) in s.elected
  {
    assert TermLed(s, t);
    l :| (t, l) in s.elected;
  }

  /** Whoever is elected in a group of two has a log at least as long as that of the leader before it. */
  lemma ElectedLong(s: Group, id: nat, y: nat, t: nat) returns (x: nat)
    requires Pair(s, id, y) && t in s.termLog && t < s.nodes[id].currentTerm
    requires Granted(s, s.nodes[id].currentTerm, y, id)
    ensures t <= x && x in s.termLog && |s.termLog[x]| <= |s.nodes[id].log|
  {
    x := LastLed(s, t, s.nodes[id].currentTerm);
    var l := TermLeader(s, x);
    LastLeaderLong(s, id, y, x, l);
  }

  lemma LastLeaderLong(s: Group, id: nat, y: nat, x: nat, l: nat)
    requires Pair(s, id, y) && (x, l) in s.elected && x < s.nodes[id].currentTerm && x in s.termLog
    requires !LedAfter(s, x, s.nodes[id].currentTerm) && Granted(s, s.nodes[id].currentTerm, y, id)
    ensures |s.termLog[x]| <= |s.nodes[id].log|
  {
    assert LeadOk(s, x, l);
    if l != id {
      OnlyTwo(s.nodes.Keys, id, y, l);
      NotLedBeyond(s, id, y, x);
      CandidateUpToDate(s, id, y);
      LastVoter(s, id, y, x);
      if LastTerm(s.nodes[id]) > 0 {
        LabelAtMost(s, id, x);
      }
      LedTermPositive(s, id, y, x);
      VoterNoLonger(s, id, y, x);
    }
  }

  lemma LedTermPositive(s: Group, id: nat, y: nat, x: nat)
    requires GrantOk(s, x, id, y) && RequestInv(s)
    ensures x > 0
  {
    var li, lt :| Requested(s, y, id, x, li, lt);
    assert RequestOk(s, y, id, x, li, lt);
  }

  lemma NotLedBeyond(s: Group, id: nat, y: nat, x: nat)
    requires Pair(s, id, y) && !LedAfter(s, x, s.nodes[id].currentTerm)
    ensures !LedAfter(s, x, s.nodes[y].currentTerm)
  {
    forall w | x < w <= s.nodes[y].currentTerm
      ensures w !in s.termLog
    {
      if w in s.termLog {
        var l := TermLeader(s, w);
        NoLaterLeader(s, id, w);
      }
    }
  }

  lemma CandidateUpToDate(s: Group, id: nat, y: nat)
    requires Pair(s, id, y) && Granted(s, s.nodes[id].currentTerm, y, id)
    ensures UpToDate(s.nodes[y], LastIndex(s.nodes[id]), LastTerm(s.nodes[id]))
  {
    var n, u := s.nodes[id], s.nodes[id].currentTerm;
    assert GrantOk(s, u, y, id);
    NotLedBeyond(s, id, y, u);
    var li, lt :| Requested(s, id, y, u, li, lt);
    assert RequestOk(s, id, y, u, li, lt) && AsRequested(s, id, u);
    assert LastTerm(s.nodes[y]) != u by {
      if LastTerm(s.nodes[y]) == u {
        LabelIsLed(s, y);
      }
    }
  }

  lemma LabelIsLed(s: Group, v: nat)
    requires LabelsLed(s) && LeadInv(s) && v in s.nodes && LastTerm(s.nodes[v]) > 0
    ensures LastTerm(s.nodes[v]) in s.termLog
  {
    assert LabelLed(s, v);
    var l :| (LastTerm(s.nodes[v]), l) in s.elected;
    assert LeadOk(s, LastTerm(s.nodes[v]), l);
  }

  /** The invariants that a new leader's length depends on. */
  ghost predicate PairInv(s: Group) {
    && |s.nodes| <= 2 && TermsLed(s) && LabelsLed(s) && Voted(s)
    && LeadInv(s) && RequestInv(s) && GrantInv(s) && EndInv(s)
    && forall v :: v in s.nodes ==> NodeInv(s.nodes[v])
  }

  lemma FirstOfTerm(s: Group, id: nat, s': Group, y: nat, t: nat) returns (x: nat)
    requires Next(s, id, s') && PairInv(s) && VotedFor(s', s'.nodes[id].currentTerm, y, id)
    requires s'.nodes[id].role.Leader? && s'.nodes[id].currentTerm !in s.termLog
    requires t in s.termLog && t < s'.nodes[id].currentTerm
    ensures t <= x && x in s.termLog && |s.termLog[x]| <= |s'.nodes[id].log|
  {
    var n, u := s.nodes[id], s'.nodes[id].currentTerm;
    assert n.role.Leader? ==> LeadOk(s, u, id);
    assert Granted(s, u, y, id);
    x := ElectedLong(s, id, y, t);
  }

  lemma LeaderAlone(s: Group, id: nat, s': Group, w: nat)
    requires Next(s, id, s') && PairInv(s) && s'.nodes[id].role.Leader? && w > s'.nodes[id].currentTerm
    ensures w !in s.termLog
  {
    if w in s.termLog {
      var l := TermLeader(s, w);
      NoLaterLeader(s, id, w);
    }
  }

  lemma MonoStep(s: Group, id: nat, s': Group)
    requires Next(s, id, s') && PairInv(s) && Voted(s') && MonoInv(s)
    ensures MonoInv(s')
  {
    forall t, w | t in s'.termLog && w in s'.termLog && t <= w
      ensures |s'.termLog[t]| <= |s'.termLog[w]|
    {
      MonoStepOne(s, id, s', t, w);
    }
  }

  lemma MonoStepOne(s: Group, id: nat, s': Group, t: nat, w: nat)
    requires Next(s, id, s') && PairInv(s) && Voted(s') && MonoInv(s)
    requires t in s'.termLog && w in s'.termLog && t <= w
    ensures |s'.termLog[t]| <= |s'.termLog[w]|
  {
    var n', u := s'.nodes[id], s'.nodes[id].currentTerm;
    if n'.role.Leader? && t == u && w > u {
      LeaderAlone(s, id, s', w);
    } else if n'.role.Leader? && w == u && t < u {
      if u in s.termLog {
        assert s.termLog[u] <= s'.termLog[u];
      } else {
        assert HasVoter(s', u, id);
        var y :| VotedFor(s', u, y, id);
        var x := FirstOfTerm(s, id, s', y, t);
      }
    }
  }

  // ---- match indices ----

  /** The term of a reply that counts. */
  predicate InTime(p: Policy, n: Node, t: nat) {
    t <= n.currentTerm && (p.current ==> t == n.currentTerm)
  }

  /** A recorded index is zero or stands in a reply of that peer, of the leader's own term if replies are checked. */
  ghost predicate EntryOk(p: Policy, s: Group, l: nat, marks: seq<nat>, i: nat)
    requires l in s.nodes && i < |marks|
  {
    var n := s.nodes[l];
    marks[i] == 0
    || (i < |n.peers| && i == PeerIndex(n.peers, n.peers[i])
        && exists t: nat :: InTime(p, n, t) && Replied(s, n.peers[i], l, t, marks[i]))
  }

  ghost predicate MatchOk(p: Policy, s: Group, l: nat, marks: seq<nat>)
    requires l in s.nodes
  {
    forall i :: 0 <= i < |marks| ==> EntryOk(p, s, l, marks, i)
  }

  ghost predicate MatchInv(p: Policy, s: Group) {
    forall l {:trigger MatchOk(p, s, l, s.nodes[l].matchIndex)} ::
      l in s.nodes && s.nodes[l].role.Leader? ==> MatchOk(p, s, l, s.nodes[l].matchIndex)
  }

  /** The match indices after a reply. */
  function Counted(n: Node, from: nat, m: nat): seq<nat> {
    var pi := PeerIndex(n.peers, from);
    if pi < |n.matchIndex| then n.matchIndex[pi := m] else n.matchIndex
  }

  lemma CountedOk(p: Policy, s: Group, l: nat, from: nat, t: nat, m: nat)
    requires l in s.nodes && Sized(s.nodes[l]) && MatchOk(p, s, l, s.nodes[l].matchIndex)
    requires Replied(s, from, l, t, m) && InTime(p, s.nodes[l], t)
    ensures MatchOk(p, s, l, Counted(s.nodes[l], from, m))
  {
    var n := s.nodes[l];
    var marks' := Counted(n, from, m);
    forall i | 0 <= i < |marks'|
      ensures EntryOk(p, s, l, marks', i)
    {
      assert EntryOk(p, s, l, n.matchIndex, i);
    }
  }

  /** How a step changes the match indices of a leader. */
  lemma MatchNode(n: Node, input: Input)
    requires NodeInv(n) && NodeStep(n, input).Some? && NodeStep(n, input).value.node.role.Leader?
    ensures var n' := NodeStep(n, input).value.node;
            || (forall i :: 0 <= i < |n'.matchIndex| ==> n'.matchIndex[i] == 0)
            || (n.role.Leader? && n'.matchIndex == n.matchIndex)
            || (n.role.Leader? && input.Receive? && input.msg.AppendReply? && input.msg.success
                && input.msg.term <= n.currentTerm && n'.matchIndex == Counted(n, input.from, input.msg.matchIdx))
  {
  }

  lemma MatchStays(p: Policy, s: Group, s': Group, l: nat, marks: seq<nat>)
    requires l in s.nodes && l in s'.nodes && s.net <= s'.net && MatchOk(p, s, l, marks)
    requires s'.nodes[l].peers == s.nodes[l].peers && s'.nodes[l].currentTerm == s.nodes[l].currentTerm
    ensures MatchOk(p, s', l, marks)
  {
    forall i | 0 <= i < |marks|
      ensures EntryOk(p, s', l, marks, i)
    {
      assert EntryOk(p, s, l, marks, i);
      var n := s.nodes[l];
      if marks[i] != 0 {
        var t: nat :| InTime(p, n, t) && Replied(s, n.peers[i], l, t, marks[i]);
        assert Replied(s', n.peers[i], l, t, marks[i]);
      }
    }
  }

  lemma MatchStep(p: Policy, s: Group, a: Action)
    requires BaseInv(s) && Enabled(s, a) && Allows(p, s, a) && MatchInv(p, s) && NodeNext(s, a.id, Perform(s, a))
    ensures MatchInv(p, Perform(s, a))
  {
    var s' := Perform(s, a);
    forall l | l in s'.nodes && s'.nodes[l].role.Leader?
      ensures MatchOk(p, s', l, s'.nodes[l].matchIndex)
    {
      if l != a.id {
        assert MatchOk(p, s, l, s.nodes[l].matchIndex);
        MatchStays(p, s, s', l, s.nodes[l].matchIndex);
      } else {
        ActorMatch(p, s, a);
      }
    }
  }

  lemma ActorMatch(p: Policy, s: Group, a: Action)
    requires BaseInv(s) && Enabled(s, a) && Allows(p, s, a) && MatchInv(p, s) && NodeNext(s, a.id, Perform(s, a))
    requires Perform(s, a).nodes[a.id].role.Leader?
    ensures MatchOk(p, Perform(s, a), a.id, Perform(s, a).nodes[a.id].matchIndex)
  {
    var s', n := Perform(s, a), s.nodes[a.id];
    MatchNode(n, a.input);
    if n.role.Leader? {
      assert MatchOk(p, s, a.id, n.matchIndex);
      MatchStays(p, s, s', a.id, n.matchIndex);
      if a.input.Receive? && a.input.msg.AppendReply? && a.input.msg.success && a.input.msg.term <= n.currentTerm {
        var m := a.input.msg;
        assert Replied(s, a.input.from, a.id, m.term, m.matchIdx);
        CountedOk(p, s, a.id, a.input.from, m.term, m.matchIdx);
        MatchStays(p, s, s', a.id, Counted(n, a.input.from, m.matchIdx));
      }
    }
  }

  // ---- no read beyond the log ----

  /** Everything that the replies rest on. */
  ghost predicate Safe(p: Policy, s: Group) {
    && LogInv(s) && VoteInv(s) && LeadInv(s) && RequestInv(s) && OneRequest(s) && GrantInv(s)
    && EndInv(s) && EntriesInv(s) && ReplyInv(s) && MatchInv(p, s) && (|s.nodes| <= 2 ==> MonoInv(s))
  }

  /** A reply beyond the log of a leader of a group of at most three comes from the one member that did not vote. */
  lemma BeyondIsRefusal(p: Policy, s: Group, l: nat, w: nat, t: nat, m: nat)
    requires LeadInv(s) && ReplyInv(s) && Voted(s) && TermsLed(s) && GrantInv(s) && (|s.nodes| <= 2 ==> MonoInv(s))
    requires p.current || |s.nodes| <= 2
    requires l in s.nodes && w in s.nodes && w != l && (s.nodes[l].currentTerm, l) in s.elected
    requires Replied(s, w, l, t, m) && InTime(p, s.nodes[l], t) && m >= |s.nodes[l].log|
    ensures |s.nodes| > 2 && !Granted(s, s.nodes[l].currentTerm, w, l)
  {
    var u := s.nodes[l].currentTerm;
    assert ReplyOk(s, w, l, t, m) && LeadOk(s, t, l) && LeadOk(s, u, l);
    assert |s.termLog[u]| == |s.nodes[l].log|;
    if |s.nodes| <= 2 {
      OnlyVoter(s, t, l, w);
    }
  }

  lemma OnlyVoter(s: Group, t: nat, l: nat, w: nat)
    requires |s.nodes| <= 2 && Voted(s) && (t, l) in s.elected && w in s.nodes && w != l
    ensures Granted(s, t, w, l)
  {
    assert HasVoter(s, t, l);
    var v :| VotedFor(s, t, v, l);
    OnlyTwo(s.nodes.Keys, l, v, w);
  }

  lemma {:induction false} CountOne(s: seq<nat>, b: nat, i: int)
    requires forall j :: 0 <= j < |s| && s[j] >= b ==> j == i
    ensures CountAtLeast(s, b) <= if 0 <= i < |s| then 1 else 0
  {
    if s == [] {
    } else {
      CountOne(s[1..], b, i - 1);
      if s[0] >= b {
        assert i == 0;
      }
    }
  }

  /** What the count rests on. */
  ghost predicate Countable(p: Policy, s: Group, l: nat) {
    && BaseInv(s) && LeadInv(s) && RequestInv(s) && ReplyInv(s) && Voted(s) && TermsLed(s) && GrantInv(s)
    && (|s.nodes| <= 2 ==> MonoInv(s)) && (p.current || |s.nodes| <= 2) && |s.nodes| <= 3
    && l in s.nodes && (s.nodes[l].currentTerm, l) in s.elected && |s.nodes[l].log| > 0
  }

  /** An entry beyond the log is that of a peer who is neither the leader nor the one who voted for it. */
  lemma BeyondEntry(p: Policy, s: Group, l: nat, marks: seq<nat>, i: nat, v: nat)
    requires Countable(p, s, l) && i < |marks| && EntryOk(p, s, l, marks, i) && marks[i] >= |s.nodes[l].log|
    requires VotedFor(s, s.nodes[l].currentTerm, v, l)
    ensures i < |s.nodes[l].peers| && i == PeerIndex(s.nodes[l].peers, s.nodes[l].peers[i])
    ensures var w := s.nodes[l].peers[i]; w in s.nodes && w != l && w != v
  {
    var n := s.nodes[l];
    var t: nat :| InTime(p, n, t) && Replied(s, n.peers[i], l, t, marks[i]);
    assert PacketOk(s, Packet(n.peers[i], l, AppendReply(t, true, marks[i])));
    BeyondIsRefusal(p, s, l, n.peers[i], t, marks[i]);
  }

  lemma VoterIsPeer(s: Group, t: nat, v: nat, l: nat)
    requires GrantInv(s) && RequestInv(s) && VotedFor(s, t, v, l)
    ensures v in s.nodes[l].peers
  {
    assert GrantOk(s, t, v, l);
    var li, lt :| Requested(s, l, v, t, li, lt);
    assert RequestOk(s, l, v, t, li, lt);
  }

  lemma OnlyThree(s: set<nat>, a: nat, b: nat, c: nat, d: nat)
    requires |s| <= 3 && a in s && b in s && c in s && d in s && a != b && c != a && c != b && d != a && d != b
    ensures c == d
  {
    if c != d {
      FourNeedFour(s, a, b, c, d);
    }
  }

  /** Fewer than a quorum of the members are on record beyond the leader's log. */
  lemma TooFewBeyond(p: Policy, s: Group, l: nat, marks: seq<nat>, b: nat)
    requires Countable(p, s, l) && MatchOk(p, s, l, marks) && |marks| == |s.nodes[l].peers| && b >= |s.nodes[l].log|
    ensures CountAtLeast(marks + [LastIndex(s.nodes[l])], b) < Quorum(|s.nodes[l].peers|)
  {
    var n := s.nodes[l];
    assert HasVoter(s, n.currentTerm, l);
    var v :| VotedFor(s, n.currentTerm, v, l);
    var all := marks + [LastIndex(n)];
    if i :| 0 <= i < |marks| && marks[i] >= b {
      assert EntryOk(p, s, l, marks, i);
      BeyondEntry(p, s, l, marks, i, v);
      forall j | 0 <= j < |all| && all[j] >= b
        ensures j == i
      {
        SameEntry(p, s, l, marks, i, j, v);
      }
      CountOne(all, b, i);
      VoterIsPeer(s, n.currentTerm, v, l);
      assert |n.peers| >= 2;
    } else {
      CountOne(all, b, -1);
    }
  }

  lemma SameEntry(p: Policy, s: Group, l: nat, marks: seq<nat>, i: nat, j: nat, v: nat)
    requires Countable(p, s, l) && MatchOk(p, s, l, marks) && i < |marks| && j < |marks|
    requires marks[i] >= |s.nodes[l].log| && marks[j] >= |s.nodes[l].log| && VotedFor(s, s.nodes[l].currentTerm, v, l)
    ensures i == j
  {
    assert EntryOk(p, s, l, marks, i) && EntryOk(p, s, l, marks, j);
    BeyondEntry(p, s, l, marks, i, v);
    BeyondEntry(p, s, l, marks, j, v);
    OnlyThree(s.nodes.Keys, l, v, s.nodes[l].peers[i], s.nodes[l].peers[j]);
  }

  /** A reply that is allowed never makes its leader read beyond its log. */
  lemma ReplyDefined(p: Policy, s: Group, l: nat, from: nat, m: Msg)
    requires Safe(p, s) && |s.nodes| <= 3 && (p.current || |s.nodes| <= 2) && m.AppendReply? && l in s.nodes
    requires Packet(from, l, m) in s.net && Allows(p, s, Action(l, Receive(from, m)))
    ensures Shaped(s.nodes[l]) && OnAppendReply(s.nodes[l], from, m).Some?
  {
    var n := s.nodes[l];
    assert MemberOk(s, l);
    AppendReplyDefined(n, from, m);
    if n.role.Leader? && m.term <= n.currentTerm && m.success && PeerIndex(n.peers, from) < |n.peers| {
      VoteInvVoted(s);
      LogInvTerms(s);
      assert MatchOk(p, s, l, n.matchIndex) && Replied(s, from, l, m.term, m.matchIdx);
      CountedOk(p, s, l, from, m.term, m.matchIdx);
      TooFewBeyond(p, s, l, Counted(n, from, m.matchIdx),
                   if n.commitIndex < |n.log| then |n.log| else n.commitIndex + 1);
    }
  }

  lemma LogInvTerms(s: Group)
    requires LogInv(s)
    ensures TermsLed(s)
  {
    forall t | t in s.termLog
      ensures TermLed(s, t)
    {
      assert Led(s, t);
    }
  }

  // ---- whole runs ----

  lemma InitSafe(p: Policy, s: Group)
    requires Init(s)
    ensures Safe(p, s)
  {
    InitVote(s);
  }

  /** The facts that other modules prove of a state. */
  ghost predicate Known(s: Group) {
    LogInv(s) && VoteInv(s) && EntriesFromLeaders(s) && LabelsLed(s) && TermsLed(s) && Voted(s)
  }

  lemma AllKnown(s: Group)
    requires LogInv(s) && VoteInv(s)
    ensures Known(s)
  {
    LogInvEntries(s);
    LogInvLabels(s);
    LogInvTerms(s);
    VoteInvVoted(s);
  }

  lemma SafeStep(p: Policy, s: Group, a: Action)
    requires Safe(p, s) && Enabled(s, a) && Allows(p, s, a) && p.timely && p.guarded && |s.nodes| <= 3
    ensures Safe(p, Perform(s, a))
  {
    var s', id := Perform(s, a), a.id;
    VoteStep(s, a);
    VotesElectOne(s');
    StepIsNext(s, a);
    AllKnown(s);
    AllKnown(s');
    MatchStep(p, s, a);
    NextSafe(p, s, id, s');
  }

  lemma NextSafe(p: Policy, s: Group, id: nat, s': Group)
    requires Safe(p, s) && Known(s) && Known(s') && Next(s, id, s') && MatchInv(p, s')
    ensures Safe(p, s')
  {
    LeadStep(s, id, s');
    RequestStep(s, id, s');
    OneRequestStep(s, id, s');
    GrantStep(s, id, s');
    EndStep(s, id, s');
    EntriesStep(s, id, s');
    ReplyStep(s, id, s');
    assert |s'.nodes| == |s'.nodes.Keys| == |s.nodes.Keys| == |s.nodes|;
    if |s.nodes| <= 2 {
      forall v | v in s.nodes
        ensures NodeInv(s.nodes[v])
      {
        assert MemberOk(s, v);
      }
      MonoStep(s, id, s');
    }
  }

  lemma SameSize(states: seq<Group>, acts: seq<Action>, i: nat)
    requires IsRun(states, acts) && i < |states|
    ensures |states[i].nodes| == |states[0].nodes|
  {
    HistoryGrows(states, acts, 0, i);
    assert |states[i].nodes| == |states[i].nodes.Keys| == |states[0].nodes.Keys| == |states[0].nodes|;
  }

  lemma RunStepSafe(p: Policy, states: seq<Group>, acts: seq<Action>, i: nat)
    requires IsRun(states, acts) && Follows(p, states, acts) && 0 < i < |states|
    requires p.timely && p.guarded && |states[i - 1].nodes| <= 3 && Safe(p, states[i - 1])
    ensures Safe(p, states[i])
  {
    var s, a := states[i - 1], acts[i - 1];
    assert Enabled(s, a) && states[i - 1 + 1] == Perform(s, a) && Allows(p, s, a);
    SafeStep(p, s, a);
    assert states[i] == Perform(s, a);
  }

  lemma RunStartSafe(p: Policy, states: seq<Group>, acts: seq<Action>)
    requires IsRun(states, acts)
    ensures Safe(p, states[0])
  {
    InitSafe(p, states[0]);
  }

  lemma {:induction false} SafeRun(p: Policy, states: seq<Group>, acts: seq<Action>, i: nat)
    requires IsRun(states, acts) && Follows(p, states, acts) && i < |states|
    requires p.timely && p.guarded && |states[0].nodes| <= 3
    ensures Safe(p, states[i])
  {
    if i == 0 {
      RunStartSafe(p, states, acts);
    } else {
      SafeRun(p, states, acts, i - 1);
      SameSize(states, acts, i - 1);
      RunStepSafe(p, states, acts, i);
    }
  }

  /** A reply in the network, delivered as the policy allows, makes its receiver read beyond its log. */
  ghost predicate OutOfRange(p: Policy, s: Group, a: Action) {
    && a.id in s.nodes && Shaped(s.nodes[a.id]) && a.input.Receive? && Packet(a.input.from, a.id, a.input.msg) in s.net
    && Allows(p, s, a) && NodeStep(s.nodes[a.id], a.input).None?
  }

  /** In groups of at most three, with timely votes, guarded second sections and replies counted in their own term, no
      run reaches the undefined read; in groups of two it does not even take the last. */
  lemma NeverBeyond(p: Policy, states: seq<Group>, acts: seq<Action>, i: nat, a: Action)
    requires IsRun(states, acts) && Follows(p, states, acts) && i < |states|
    requires p.timely && p.guarded && |states[0].nodes| <= 3 && (p.current || |states[0].nodes| <= 2)
    ensures !OutOfRange(p, states[i], a)
  {
    SafeRun(p, states, acts, i);
    SameSize(states, acts, i);
    DefinedHere(p, states[i], a);
  }

  lemma DefinedHere(p: Policy, s: Group, a: Action)
    requires Safe(p, s) && |s.nodes| <= 3 && (p.current || |s.nodes| <= 2)
    ensures !OutOfRange(p, s, a)
  {
    if OutOfRange(p, s, a) {
      ReplyDefined(p, s, a.id, a.input.from, a.input.msg);
      assert false;
    }
  }
}
